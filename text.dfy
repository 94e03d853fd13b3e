/** String helpers used by code matching: case folding for the database's
    case-insensitive comparison and PHP's `trim`. */
module Text {

  /** ASCII lower-casing, the folding applied by a case-insensitive comparison. */
  function Lower(c: char): char
  {
    if 'A' <= c <= 'Z' then (c as int + 32) as char else c
  }

  function LowerStr(s: string): (r: string)
    ensures |r| == |s|
    ensures forall i :: 0 <= i < |s| ==> r[i] == Lower(s[i])
  {
    if s == [] then [] else [Lower(s[0])] + LowerStr(s[1..])
  }

  /** Equality up to letter case (the `:nocase` filter modifier). */
  predicate EqualsNoCase(a: string, b: string)
  {
    LowerStr(a) == LowerStr(b)
  }

  /** The characters PHP's `trim` removes by default: space, tab, line feed,
      carriage return, NUL and vertical tab. */
  predicate IsTrimmable(c: char)
  {
    c == ' ' || c == '\t' || c == '\n' || c == '\r' || c == 0 as char || c == 11 as char
  }

  function TrimLeft(s: string): (r: string)
    ensures |r| <= |s| && r == s[|s| - |r|..]
    ensures forall i :: 0 <= i < |s| - |r| ==> IsTrimmable(s[i])
    ensures r == [] || !IsTrimmable(r[0])
  {
    if s != [] && IsTrimmable(s[0]) then TrimLeft(s[1..]) else s
  }

  function TrimRight(s: string): (r: string)
    ensures |r| <= |s| && r == s[..|r|]
    ensures forall i :: |r| <= i < |s| ==> IsTrimmable(s[i])
    ensures r == [] || !IsTrimmable(r[|r| - 1])
  {
    if s != [] && IsTrimmable(s[|s| - 1]) then TrimRight(s[..|s| - 1]) else s
  }

  /** PHP `trim`: strip trimmable characters from both ends and keep the middle. */
  function Trim(s: string): (r: string)
    ensures |r| <= |s|
    ensures r == [] || (!IsTrimmable(r[0]) && !IsTrimmable(r[|r| - 1]))
  {
    TrimRight(TrimLeft(s))
  }

  predicate AllTrimmable(s: string)
  {
    forall i :: 0 <= i < |s| ==> IsTrimmable(s[i])
  }

  /** Trim characterised: padding on both sides is removed and a core that neither starts
      nor ends with a trimmable character is kept whole. */
  lemma TrimRemovesPadding(pre: string, core: string, post: string)
    requires AllTrimmable(pre) && AllTrimmable(post)
    requires core == [] || (!IsTrimmable(core[0]) && !IsTrimmable(core[|core| - 1]))
    ensures Trim(pre + core + post) == core
  {
    assert pre + core + post == pre + (core + post);
    TrimLeftPadding(pre, core + post);
    if core == [] {
      assert core + post == post;
      TrimLeftAll(post);
      assert TrimLeft(pre + core + post) == [];
    } else {
      assert (core + post)[0] == core[0];
      TrimLeftOfTrimmed(core + post);
      assert TrimLeft(pre + core + post) == core + post;
      TrimRightPadding(core, post);
    }
  }

  lemma TrimLeftAll(s: string)
    requires AllTrimmable(s)
    ensures TrimLeft(s) == []
  {
    if s != [] {
      TrimLeftAll(s[1..]);
    }
  }

  lemma {:induction false} TrimLeftPadding(pre: string, rest: string)
    requires AllTrimmable(pre)
    ensures TrimLeft(pre + rest) == TrimLeft(rest)
  {
    if pre == [] {
      assert pre + rest == rest;
    } else {
      assert (pre + rest)[0] == pre[0];
      assert (pre + rest)[1..] == pre[1..] + rest;
      TrimLeftPadding(pre[1..], rest);
    }
  }

  lemma TrimRightPadding(core: string, post: string)
    requires AllTrimmable(post)
    requires core == [] || !IsTrimmable(core[|core| - 1])
    ensures TrimRight(core + post) == core
  {
    if post == [] {
      assert core + post == core;
      TrimRightOfTrimmed(core);
    } else {
      assert (core + post)[..|core + post| - 1] == core + post[..|post| - 1];
      TrimRightPadding(core, post[..|post| - 1]);
    }
  }

  lemma TrimLeftOfTrimmed(s: string)
    requires s == [] || !IsTrimmable(s[0])
    ensures TrimLeft(s) == s
  {
  }

  lemma TrimRightOfTrimmed(s: string)
    requires s == [] || !IsTrimmable(s[|s| - 1])
    ensures TrimRight(s) == s
  {
  }

  /** Trimming twice is trimming once. */
  lemma TrimIdempotent(s: string)
    ensures Trim(Trim(s)) == Trim(s)
  {
    var t := Trim(s);
    TrimLeftOfTrimmed(t);
    TrimRightOfTrimmed(t);
  }
}
