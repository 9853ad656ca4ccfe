/** The login handshake's hidden-token lookup (`getMdVal`). */
module Login {
  import opened Wrappers

  /**
   * One `<input>` tag of the login form. A tag may lack either attribute;
   * reading a missing attribute raises `KeyError`, which the lookup swallows.
   */
  datatype FormInput = FormInput(name: Option<string>, value: Option<string>)

  /** The form field that carries the login token. */
  const TokenField: string := "execution"

  /** An input the loop takes its value from: named `execution` and carrying a value. */
  predicate IsToken(input: FormInput) {
    input.name == Some(TokenField) && input.value.Some?
  }

  /** Reference definition: the value of the last token input, scanning from the end. */
  function LastToken(inputs: seq<FormInput>): Option<string> {
    if inputs == [] then None
    else if IsToken(inputs[|inputs| - 1]) then inputs[|inputs| - 1].value
    else LastToken(inputs[..|inputs| - 1])
  }

  /** `LastToken` finds a token exactly when one exists, and it is the last one. */
  lemma {:induction false} LastTokenIsLast(inputs: seq<FormInput>)
    ensures LastToken(inputs).Some? <==> exists i :: 0 <= i < |inputs| && IsToken(inputs[i])
    ensures LastToken(inputs).Some? ==>
              exists i :: 0 <= i < |inputs| && IsToken(inputs[i]) && inputs[i].value == LastToken(inputs)
                          && forall j :: i < j < |inputs| ==> !IsToken(inputs[j])
  {
    if inputs != [] {
      var n := |inputs| - 1;
      var prefix := inputs[..n];
      LastTokenIsLast(prefix);
      if !IsToken(inputs[n]) {
        assert forall i :: 0 <= i < n ==> prefix[i] == inputs[i];
        if LastToken(prefix).Some? {
          var i :| 0 <= i < n && IsToken(prefix[i]) && prefix[i].value == LastToken(prefix)
                   && forall j :: i < j < n ==> !IsToken(prefix[j]);
          assert inputs[i] == prefix[i];
        }
      }
    }
  }

  /**
   * `getMdVal`: walks the form's inputs and overwrites the result at every
   * token input, so the last one wins; `None` is the `UnboundLocalError` the
   * source raises when no input qualifies.
   */
  method GetMdVal(inputs: seq<FormInput>) returns (mdval: Option<string>)
    ensures mdval == LastToken(inputs)
    ensures mdval.Some? <==> exists i :: 0 <= i < |inputs| && IsToken(inputs[i])
    ensures mdval.Some? ==>
              exists i :: 0 <= i < |inputs| && IsToken(inputs[i]) && inputs[i].value == mdval
                          && forall j :: i < j < |inputs| ==> !IsToken(inputs[j])
  {
    mdval := None;
    var k := 0;
    while k < |inputs|
      invariant 0 <= k <= |inputs|
      invariant mdval == LastToken(inputs[..k])
    {
      assert inputs[..k + 1][..k] == inputs[..k];
      if inputs[k].name == Some(TokenField) {
        match inputs[k].value
        case Some(v) => mdval := Some(v);
        case None =>
      }
      k := k + 1;
    }
    assert inputs[..k] == inputs;
    LastTokenIsLast(inputs);
  }
}
