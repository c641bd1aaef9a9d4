/** The string functions of include/string.h that the registry uses. */
module CString {

  /** What stands before the terminator; char is signed on the target. */
  type Text = s: seq<int> | forall k :: 0 <= k < |s| ==> s[k] != 0 && -128 <= s[k] < 128
    witness []

  /** The character at index i of a string in memory. Nothing is known past the terminator. */
  function Char(s: Text, i: int): (c: int)
    requires 0 <= i <= |s|
    ensures c == 0 <==> i == |s|
    ensures -128 <= c < 128
  {
    if i < |s| then s[i] else 0
  }

  // ---------------------------------------------------------------- the order

  /** The two strings agree before k and part there. */
  ghost predicate PartAt(s: Text, t: Text, k: int) {
    0 <= k <= |s| && k <= |t| && s[..k] == t[..k] && Char(s, k) != Char(t, k)
  }

  /** How s compares with t: by the first character in which they differ, the
      terminator included. */
  ghost function Order(s: Text, t: Text): int {
    if s != t then Char(s, Parting(s, t, 0)) - Char(t, Parting(s, t, 0)) else 0
  }

  /** The first place, from k, at which the strings part. */
  ghost function Parting(s: Text, t: Text, k: int): (p: int)
    requires 0 <= k <= |s| && k <= |t| && s[..k] == t[..k] && s != t
    ensures PartAt(s, t, p)
    decreases |s| - k
  {
    if Char(s, k) != Char(t, k) then k
    else
      assert k < |s| && s[..k + 1] == s[..k] + [s[k]] && t[..k + 1] == t[..k] + [t[k]];
      Parting(s, t, k + 1)
  }

  lemma PartingUnique(s: Text, t: Text, j: int, k: int)
    requires PartAt(s, t, j) && PartAt(s, t, k)
    ensures j == k
  {
    forall i | 0 <= i < j
      ensures Char(s, i) == Char(t, i)
    {
      assert s[..j][i] == t[..j][i];
    }
    forall i | 0 <= i < k
      ensures Char(s, i) == Char(t, i)
    {
      assert s[..k][i] == t[..k][i];
    }
  }

  /** Strings that part at k compare by their characters there. */
  lemma OrderAt(s: Text, t: Text, k: int)
    requires PartAt(s, t, k)
    ensures s != t && Order(s, t) == Char(s, k) - Char(t, k)
  {
    if s == t {
      assert false;
    }
    PartingUnique(s, t, k, Parting(s, t, 0));
  }

  /** The order is total: equal only on equal strings, and opposite the other way round. */
  lemma OrderTotal(s: Text, t: Text)
    ensures Order(s, t) == 0 <==> s == t
    ensures Order(s, t) == -Order(t, s)
  {
    if s != t {
      OrderAt(t, s, Parting(s, t, 0));
    }
  }

  lemma OrderTransitive(s: Text, t: Text, u: Text)
    requires Order(s, t) <= 0 && Order(t, u) <= 0
    ensures Order(s, u) <= 0
    ensures Order(s, u) == 0 ==> s == t == u
  {
    if s != t && t != u {
      var j, k := Parting(s, t, 0), Parting(t, u, 0);
      var m := if j < k then j else k;
      assert s[..m] == s[..j][..m] == t[..j][..m] == t[..m] == t[..k][..m] == u[..k][..m] == u[..m];
      if j < k {
        assert t[..k][j] == u[..k][j];
      } else if k < j {
        assert s[..j][k] == t[..j][k];
      }
      OrderAt(s, u, m);
    }
  }

  // ---------------------------------------------------------------- the functions

  /** strcmp: no character past a terminator is read. */
  method StrCmp(s: Text, t: Text) returns (r: int)
    ensures r == Order(s, t)
  {
    var i, c1, c2 := 0, 0, 0;
    c1, c2 := Char(s, i), Char(t, i);
    r, i := c1 - c2, i + 1;
    while r == 0 && c1 != 0
      invariant 1 <= i <= |s| + 1 && i <= |t| + 1
      invariant s[..i - 1] == t[..i - 1]
      invariant c1 == Char(s, i - 1) && c2 == Char(t, i - 1) && r == c1 - c2
      decreases |s| - i
    {
      assert s[..i] == s[..i - 1] + [s[i - 1]] && t[..i] == t[..i - 1] + [t[i - 1]];
      c1, c2 := Char(s, i), Char(t, i);
      r, i := c1 - c2, i + 1;
    }
    if r != 0 {
      OrderAt(s, t, i - 1);
    } else {
      assert s == s[..i - 1] && t == t[..i - 1];
    }
  }

  /** memcmp with a length within the second string: whether that is how the first begins. */
  method MemCmp(s: Text, t: Text, len: nat) returns (r: int)
    requires len <= |t|
    ensures r == 0 <==> t[..len] <= s
  {
    var i := 0;
    r := 0;
    while r == 0 && i < len
      invariant 0 <= i <= len
      invariant r == 0 ==> i <= |s| && s[..i] == t[..i]
      invariant r != 0 ==> !(t[..len] <= s)
    {
      r := Char(s, i) - Char(t, i);
      if r != 0 {
        assert t[..len][i] == t[i];
      } else {
        assert s[..i + 1] == s[..i] + [s[i]] && t[..i + 1] == t[..i] + [t[i]];
      }
      i := i + 1;
    }
  }
}
