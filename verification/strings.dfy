/** Gluing two strings with a one-character separator, and when the parts can be read back. */
module Strings {

  /** `x + sep + y`, the shape of a namespace key and of a dotted module path. */
  function Join(x: string, sep: char, y: string): (s: string)
    ensures |s| == |x| + 1 + |y|
    ensures s[..|x|] == x && s[|x|] == sep && s[|x| + 1..] == y
  {
    x + [sep] + y
  }

  /** When the left part never holds the separator, a joined string determines both parts. */
  lemma {:induction false} JoinInjective(x1: string, y1: string, x2: string, y2: string, sep: char)
    requires sep !in x1 && sep !in x2
    ensures Join(x1, sep, y1) == Join(x2, sep, y2) <==> x1 == x2 && y1 == y2
  {
    var s1, s2 := Join(x1, sep, y1), Join(x2, sep, y2);
    if s1 == s2 {
      // |x1| and |x2| are both the position of the first separator in the one string.
      assert |x1| == |x2| by {
        assert forall i :: 0 <= i < |x1| ==> s1[i] == x1[i] != sep;
        assert forall i :: 0 <= i < |x2| ==> s2[i] == x2[i] != sep;
      }
    }
  }

  /** A joined string always holds the separator, so it never equals a string that does not. */
  lemma JoinNeverBare(x: string, y: string, sep: char, s: string)
    requires sep !in s
    ensures Join(x, sep, y) != s
  {
  }
}
