/** The targets-page address (`buildTargetsURL`) and a reader for its query string. */
module TargetsUrl {
  import opened Text

  /** The reporting-period settings read once from the configuration and used for every hotspot. */
  datatype Period = Period(bmo: string, emo: string, reg: string, list: string)

  const TargetsBase: string := "https://ebird.org/targets?"

  /**
   * `buildTargetsURL`: the base address followed by the parameters `r1`, `bmo`,
   * `emo`, `r2`, `t2` in that order, each value copied verbatim (no URL encoding).
   */
  function BuildTargetsURL(hs: string, bmo: string, emo: string, reg: string, list: string): (url: string)
    ensures |url| == |TargetsBase| + 22 + |hs| + |bmo| + |emo| + |reg| + |list|
    ensures url[..|TargetsBase|] == TargetsBase
  {
    TargetsBase + "&r1=" + hs + "&bmo=" + bmo + "&emo=" + emo + "&r2=" + reg + "&t2=" + list
  }

  /** One `key=value` field; a field without `=` has an empty value. */
  function KeyValue(field: string): (string, string) {
    if '=' in field then
      var i := IndexOf(field, '=');
      (field[..i], field[i + 1..])
    else (field, "")
  }

  /** The non-empty `&`-separated fields of a query, each split into key and value. */
  function Fields(query: string): seq<(string, string)>
    decreases |query|
  {
    if '&' !in query then Field(query)
    else
      var i := IndexOf(query, '&');
      Field(query[..i]) + Fields(query[i + 1..])
  }

  function Field(piece: string): seq<(string, string)> {
    if piece == [] then [] else [KeyValue(piece)]
  }

  /** The query of an address: the fields after its first `?`. */
  function QueryPairs(url: string): seq<(string, string)> {
    if '?' !in url then []
    else Fields(url[IndexOf(url, '?') + 1..])
  }

  /** Reading a query peels off the text before its first `&`. */
  lemma FieldsCons(a: string, b: string)
    requires '&' !in a
    ensures Fields(a + ['&'] + b) == Field(a) + Fields(b)
  {
    var q := a + ['&'] + b;
    assert q[|a|] == '&';
    IndexOfPrefix(a, '&', b);
    assert q[..|a|] == a;
    assert q[|a| + 1..] == b;
  }

  /** A field whose key holds no `=` reads back as that key and value. */
  lemma KeyValueOf(f: string, key: string, value: string)
    requires '=' !in key && '&' !in f
    requires f == key + ['='] + value
    ensures Field(f) == Fields(f) == [(key, value)]
  {
    IndexOfPrefix(key, '=', value);
    assert f[..|key|] == key;
    assert f[|key| + 1..] == value;
  }

  /** The part of a built address after its `?`. */
  lemma QueryOf(url: string, query: string)
    requires url == "https://ebird.org/targets" + ['?'] + query
    ensures QueryPairs(url) == Fields(query)
  {
    IndexOfPrefix("https://ebird.org/targets", '?', query);
    assert url[26..] == query;
  }

  /** A `key=value&` prefix reads as one parameter followed by the rest. */
  lemma FieldsParam(key: string, value: string, rest: string)
    requires '=' !in key && '&' !in key && '&' !in value
    ensures Fields(key + "=" + value + "&" + rest) == [(key, value)] + Fields(rest)
  {
    var f := key + "=" + value;
    assert key + "=" + value + "&" + rest == f + ['&'] + rest;
    FieldsCons(f, rest);
    KeyValueOf(f, key, value);
  }

  /** A final `key=value` reads as one parameter. */
  lemma FieldsLast(key: string, value: string)
    requires '=' !in key && '&' !in key && '&' !in value
    ensures Fields(key + "=" + value) == [(key, value)]
  {
    KeyValueOf(key + "=" + value, key, value);
  }

  /** The built address, regrouped so that the query reads one parameter at a time. */
  lemma TargetsURLShape(hs: string, bmo: string, emo: string, reg: string, list: string)
    ensures BuildTargetsURL(hs, bmo, emo, reg, list)
            == "https://ebird.org/targets" + ['?'] + ([] + ['&'] + ("r1" + "=" + hs + "&" + ("bmo" + "=" + bmo + "&"
               + ("emo" + "=" + emo + "&" + ("r2" + "=" + reg + "&" + ("t2" + "=" + list))))))
  {
  }

  /**
   * Round trip: when no parameter value contains `&`, reading the query of the
   * built address gives back the five parameters, by name and in order.
   */
  lemma TargetsURLRoundTrip(hs: string, bmo: string, emo: string, reg: string, list: string)
    requires '&' !in hs && '&' !in bmo && '&' !in emo && '&' !in reg && '&' !in list
    ensures QueryPairs(BuildTargetsURL(hs, bmo, emo, reg, list))
            == [("r1", hs), ("bmo", bmo), ("emo", emo), ("r2", reg), ("t2", list)]
  {
    var q4 := "r2" + "=" + reg + "&" + ("t2" + "=" + list);
    var q3 := "emo" + "=" + emo + "&" + q4;
    var q2 := "bmo" + "=" + bmo + "&" + q3;
    var q1 := "r1" + "=" + hs + "&" + q2;
    FieldsLast("t2", list);
    FieldsParam("r2", reg, "t2" + "=" + list);
    FieldsParam("emo", emo, q4);
    FieldsParam("bmo", bmo, q3);
    FieldsParam("r1", hs, q2);
    FieldsCons([], q1);
    TargetsURLShape(hs, bmo, emo, reg, list);
    QueryOf(BuildTargetsURL(hs, bmo, emo, reg, list), [] + ['&'] + q1);
    Regroup(("r1", hs), ("bmo", bmo), ("emo", emo), ("r2", reg), ("t2", list));
  }

  lemma Regroup<T>(a: T, b: T, c: T, d: T, e: T)
    ensures [] + ([a] + ([b] + ([c] + ([d] + [e])))) == [a, b, c, d, e]
  {
  }

  lemma Reassociate(p: string, id: string, amp: string, key: string, eq: string, value: string, rest: string)
    ensures p + (id + amp + key + eq + value) + amp + rest == p + id + amp + (key + eq + value + amp + rest)
  {
  }

  lemma Regroup6<T>(a: T, b: T, c: T, d: T, e: T, f: T)
    ensures [] + ([a] + ([b] + ([c] + ([d] + ([e] + [f]))))) == [a, b, c, d, e, f]
  {
  }

  /**
   * Without encoding, an `&` inside a hotspot id is read back as a boundary:
   * the id is cut short and an extra parameter appears after `r1`.
   */
  lemma UnencodedAmpersand(id: string, key: string, value: string, bmo: string, emo: string, reg: string, list: string)
    requires '&' !in id && '&' !in key && '&' !in value && '=' !in key
    requires '&' !in bmo && '&' !in emo && '&' !in reg && '&' !in list
    ensures QueryPairs(BuildTargetsURL(id + "&" + key + "=" + value, bmo, emo, reg, list))
            == [("r1", id), (key, value), ("bmo", bmo), ("emo", emo), ("r2", reg), ("t2", list)]
  {
    var hs := id + "&" + key + "=" + value;
    var q4 := "r2" + "=" + reg + "&" + ("t2" + "=" + list);
    var q3 := "emo" + "=" + emo + "&" + q4;
    var q2 := "bmo" + "=" + bmo + "&" + q3;
    var q1 := key + "=" + value + "&" + q2;
    var q0 := "r1" + "=" + id + "&" + q1;
    FieldsLast("t2", list);
    FieldsParam("r2", reg, "t2" + "=" + list);
    FieldsParam("emo", emo, q4);
    FieldsParam("bmo", bmo, q3);
    FieldsParam(key, value, q2);
    FieldsParam("r1", id, q1);
    FieldsCons([], q0);
    TargetsURLShape(hs, bmo, emo, reg, list);
    Reassociate("r1" + "=", id, "&", key, "=", value, q2);
    QueryOf(BuildTargetsURL(hs, bmo, emo, reg, list), [] + ['&'] + q0);
    Regroup6(("r1", id), (key, value), ("bmo", bmo), ("emo", emo), ("r2", reg), ("t2", list));
  }
}
