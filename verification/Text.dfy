/** String trimming as JavaScript does it. */
module Text {

  predicate IsSpace(c: char) {
    var n := c as int;
    9 <= n <= 13 || n == 0x20 || n == 0xA0 || n == 0x1680 || 0x2000 <= n <= 0x200A || n == 0x2028 || n == 0x2029
    || n == 0x202F || n == 0x205F || n == 0x3000 || n == 0xFEFF
  }

  /** The white space and line terminators of ECMAScript, by code point. */
  const WHITE_SPACE: seq<int> := [
    0x09, 0x0A, 0x0B, 0x0C, 0x0D, 0x20, 0xA0, 0x1680, 0x2000, 0x2001, 0x2002, 0x2003, 0x2004, 0x2005, 0x2006, 0x2007, 0x2008,
    0x2009, 0x200A, 0x2028, 0x2029, 0x202F, 0x205F, 0x3000, 0xFEFF
  ]

  lemma SpaceIs(c: char)
    ensures IsSpace(c) <==> c as int in WHITE_SPACE
  {
    var n := c as int;
    assert 0x2000 <= n <= 0x200A ==> WHITE_SPACE[n - 0x2000 + 8] == n;
    assert 9 <= n <= 13 ==> WHITE_SPACE[n - 9] == n;
  }

  function TrimStart(s: string): (r: string)
    ensures |r| <= |s| && r == s[|s| - |r|..]
    ensures r != [] ==> !IsSpace(r[0])
    ensures forall i :: 0 <= i < |s| - |r| ==> IsSpace(s[i])
  {
    if s != [] && IsSpace(s[0]) then TrimStart(s[1..]) else s
  }

  function TrimEnd(s: string): (r: string)
    ensures |r| <= |s| && r == s[..|r|]
    ensures r != [] ==> !IsSpace(r[|r| - 1])
    ensures forall i :: |r| <= i < |s| ==> IsSpace(s[i])
  {
    if s != [] && IsSpace(s[|s| - 1]) then TrimEnd(s[..|s| - 1]) else s
  }

  function Trim(s: string): string {
    TrimEnd(TrimStart(s))
  }

  /** The part of s that is left when white space is taken off both ends. */
  predicate IsTrimmed(s: string, i: nat, j: nat) {
    i <= j <= |s|
    && (forall k :: 0 <= k < i ==> IsSpace(s[k]))
    && (forall k :: j <= k < |s| ==> IsSpace(s[k]))
    && (i < j ==> !IsSpace(s[i]) && !IsSpace(s[j - 1]))
  }

  lemma TrimLeaves(s: string) returns (i: nat, j: nat)
    ensures IsTrimmed(s, i, j) && Trim(s) == s[i..j]
  {
    hide TrimStart, TrimEnd, IsSpace;
    var start := TrimStart(s);
    var r := TrimEnd(start);
    i := |s| - |start|;
    j := i + |r|;
    assert forall k :: |r| <= k < |start| ==> start[k] == s[i + k] && IsSpace(start[k]);
    forall k | j <= k < |s|
      ensures IsSpace(s[k])
    {
      assert s[k] == start[k - i];
    }
    assert r != [] ==> r[0] == start[0] == s[i] && r[|r| - 1] == s[j - 1];
  }

  /** Trim leaves exactly the part between the white space at the two ends. */
  lemma TrimIs(s: string, i: nat, j: nat)
    requires IsTrimmed(s, i, j)
    ensures Trim(s) == s[i..j]
  {
    hide Trim, IsSpace;
    var n, m := TrimLeaves(s);
    if i < j {
      assert n <= i < j <= m;
      assert n == i && m == j;
    } else {
      assert forall k :: 0 <= k < |s| ==> IsSpace(s[k]);
    }
  }
}
