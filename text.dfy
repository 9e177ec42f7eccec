/** Whitespace trimming as done by JavaScript's String.prototype.trim, which the
    task handlers use to reject blank drafts (`!text.trim()`). */
module Text {

  /** The code points `trim` removes from either end: the ECMAScript WhiteSpace
      characters (tab, vertical tab, form feed, space, no-break space, zero-width
      no-break space and the other space separators) and the LineTerminator
      characters (line feed, carriage return, line and paragraph separators). */
  const Trimmable: set<char> := {
    '\t', '\n', '\U{000B}', '\U{000C}', '\r', ' ', '\U{00A0}', '\U{1680}',
    '\U{2000}', '\U{2001}', '\U{2002}', '\U{2003}', '\U{2004}', '\U{2005}',
    '\U{2006}', '\U{2007}', '\U{2008}', '\U{2009}', '\U{200A}',
    '\U{2028}', '\U{2029}', '\U{202F}', '\U{205F}', '\U{3000}', '\U{FEFF}'
  }

  predicate IsTrimmable(c: char) {
    c in Trimmable
  }

  /** Drops the leading trimmable characters: the result is the suffix of `s`
      that starts at its first non-trimmable character. */
  function TrimStart(s: string): (r: string)
    ensures |r| <= |s| && r == s[|s| - |r|..]
    ensures r != [] ==> !IsTrimmable(r[0])
  {
    if s != [] && IsTrimmable(s[0]) then TrimStart(s[1..]) else s
  }

  /** Every character `TrimStart` drops is trimmable. */
  lemma {:induction false} TrimStartDrops(s: string)
    ensures forall i :: 0 <= i < |s| - |TrimStart(s)| ==> IsTrimmable(s[i])
  {
    if s != [] && IsTrimmable(s[0]) {
      TrimStartDrops(s[1..]);
      forall i | 1 <= i < |s| - |TrimStart(s)| ensures IsTrimmable(s[i]) {
        assert s[i] == s[1..][i - 1];
      }
    }
  }

  /** Drops the trailing trimmable characters: the result is the prefix of `s`
      that ends at its last non-trimmable character. */
  function TrimEnd(s: string): (r: string)
    ensures |r| <= |s| && r == s[..|r|]
    ensures r != [] ==> !IsTrimmable(r[|r| - 1])
  {
    if s != [] && IsTrimmable(s[|s| - 1]) then TrimEnd(s[..|s| - 1]) else s
  }

  /** Every character `TrimEnd` drops is trimmable. */
  lemma {:induction false} TrimEndDrops(s: string)
    ensures forall i :: |TrimEnd(s)| <= i < |s| ==> IsTrimmable(s[i])
  {
    if s != [] && IsTrimmable(s[|s| - 1]) {
      var init := s[..|s| - 1];
      TrimEndDrops(init);
      forall i | |TrimEnd(s)| <= i < |s| - 1 ensures IsTrimmable(s[i]) {
        assert s[i] == init[i];
      }
    }
  }

  /** `r` is the slice of `s` starting at `lo` and everything outside it is trimmable. */
  ghost predicate TrimmedAt(s: string, r: string, lo: int) {
    && 0 <= lo <= |s| - |r| && r == s[lo..lo + |r|]
    && (forall i :: 0 <= i < lo ==> IsTrimmable(s[i]))
    && (forall i :: lo + |r| <= i < |s| ==> IsTrimmable(s[i]))
  }

  /** `s.trim()`: the slice `s[lo..lo + |r|]` with everything outside it trimmable
      and, when it is not empty, a non-trimmable character at each end. */
  function Trim(s: string): (r: string)
    ensures |r| <= |s|
    ensures r != [] ==> !IsTrimmable(r[0]) && !IsTrimmable(r[|r| - 1])
    ensures TrimmedAt(s, r, |s| - |TrimStart(s)|)
  {
    var t := TrimStart(s);
    var r := TrimEnd(t);
    TrimStartDrops(s);
    TrimEndDrops(t);
    SliceOfSuffix(s, t, r, |s| - |t|);
    PrefixKeepsHead(t, r);
    r
  }

  /** A non-empty prefix of a string that starts with a non-trimmable
      character starts with it too. */
  lemma PrefixKeepsHead(t: string, r: string)
    requires |r| <= |t| && r == t[..|r|]
    requires t != [] ==> !IsTrimmable(t[0])
    ensures r != [] ==> !IsTrimmable(r[0])
  {
    if r != [] {
      assert r[0] == t[0];
    }
  }

  /** A prefix `r` of the suffix `t == s[lo..]`, with only trimmable characters
      before `lo` and after `r` in `t`, is a trimmed slice of `s`. */
  lemma SliceOfSuffix(s: string, t: string, r: string, lo: int)
    requires 0 <= lo <= |s| && t == s[lo..]
    requires |r| <= |t| && r == t[..|r|]
    requires forall i :: 0 <= i < lo ==> IsTrimmable(s[i])
    requires forall i :: |r| <= i < |t| ==> IsTrimmable(t[i])
    ensures TrimmedAt(s, r, lo)
  {
    forall i | lo + |r| <= i < |s| ensures IsTrimmable(s[i]) {
      assert s[i] == t[i - lo];
    }
  }

  /** `!s.trim()` holds when every character is trimmable. */
  predicate IsBlank(s: string) {
    forall i :: 0 <= i < |s| ==> IsTrimmable(s[i])
  }

  /** The handlers' guard `!s.trim()`: trimming leaves nothing exactly when
      every character is trimmable, so the guard holds exactly for the blank
      strings. */
  function TrimsToEmpty(s: string): (b: bool)
    ensures b <==> IsBlank(s)
  {
    var r := Trim(s);
    assert r != [] ==> s[|s| - |TrimStart(s)|] == r[0];
    r == []
  }

  /** Trimming twice is trimming once. */
  lemma TrimIdempotent(s: string)
    ensures Trim(Trim(s)) == Trim(s)
  {
    var r := Trim(s);
    if r != [] {
      assert TrimStart(r) == r;
      assert TrimEnd(r) == r;
    }
  }
}
