/** The storage namespace of an experiment or of one algorithm inside it (`getDocUID`). */
module Namespace {
  import opened Wrappers
  import opened Strings

  /** The character placed between the experiment UID and the algorithm UID. */
  const Delim: char := '-'

  /** The alphabet of `getNewUID`: sixteen random bytes written as lower-case hex. */
  const HexDigits: string := "0123456789abcdef"

  /** The shape of every UID the system hands out: 32 lower-case hex characters. */
  predicate IsHexUid(u: string)
  {
    |u| == 32 && forall i :: 0 <= i < |u| ==> u[i] in HexDigits
  }

  /**
   * The namespace key: the experiment UID alone when no algorithm UID is given,
   * otherwise the experiment UID, a dash and the algorithm UID.
   */
  function DocUid(expUid: string, algUid: Option<string>): (key: string)
    ensures algUid.None? ==> key == expUid
    ensures algUid.Some? ==>
      && |key| == |expUid| + 1 + |algUid.value|
      && key[..|expUid|] == expUid
      && key[|expUid|] == Delim
      && key[|expUid| + 1..] == algUid.value
  {
    match algUid
    case None => expUid
    case Some(a) => Join(expUid, Delim, a)
  }

  /** No UID drawn from the hex alphabet holds the dash. */
  lemma HexUidHasNoDelim(u: string)
    requires IsHexUid(u)
    ensures Delim !in u
  {
  }

  /**
   * Distinct (experiment, algorithm) pairs get distinct keys, and an experiment's own key
   * never equals an algorithm's key, as long as experiment UIDs hold no dash.
   */
  lemma {:induction false} DocUidInjective(e1: string, a1: Option<string>, e2: string, a2: Option<string>)
    requires Delim !in e1 && Delim !in e2
    ensures DocUid(e1, a1) == DocUid(e2, a2) <==> e1 == e2 && a1 == a2
  {
    match (a1, a2)
    case (None, None) =>
    case (Some(x1), Some(x2)) => JoinInjective(e1, x1, e2, x2, Delim);
    case (Some(x1), None) => JoinNeverBare(e1, x1, Delim, e2);
    case (None, Some(x2)) => JoinNeverBare(e2, x2, Delim, e1);
  }

  /** The namespaces of UIDs produced by `getNewUID` never collide. */
  lemma UidNamespacesDisjoint(e1: string, a1: Option<string>, e2: string, a2: Option<string>)
    requires IsHexUid(e1) && IsHexUid(e2)
    requires a1.Some? ==> IsHexUid(a1.value)
    requires a2.Some? ==> IsHexUid(a2.value)
    ensures DocUid(e1, a1) == DocUid(e2, a2) <==> e1 == e2 && a1 == a2
  {
    HexUidHasNoDelim(e1);
    HexUidHasNoDelim(e2);
    DocUidInjective(e1, a1, e2, a2);
  }

  /** The two keys shown in the documentation of `getDocUID`. */
  lemma DocUidExamples()
    ensures DocUid("eee9d58c61d580029113ba593446d23a", None) == "eee9d58c61d580029113ba593446d23a"
    ensures DocUid("eee9d58c61d580029113ba593446d23a", Some("f081d374abac6c009f5a74877f8b9f3c"))
         == "eee9d58c61d580029113ba593446d23a-f081d374abac6c009f5a74877f8b9f3c"
  {
    var e, a := "eee9d58c61d580029113ba593446d23a", "f081d374abac6c009f5a74877f8b9f3c";
    assert DocUid(e, Some(a)) == e + [Delim] + a;
  }
}
