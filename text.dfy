/** Python's `str.strip(chars)` and `str.join`, the two string operations
    the scripts apply to oracle output and to the packed context. */
module Text {

  /** The characters `str.isspace` accepts, which `str.strip()` with no
      argument removes. */
  const Whitespace: set<char> :=
    {'\t', '\n', '\U{B}', '\U{C}', '\r', '\U{1C}', '\U{1D}', '\U{1E}', '\U{1F}', ' ',
     '\U{85}', '\U{A0}', '\U{1680}', '\U{2000}', '\U{2001}', '\U{2002}', '\U{2003}',
     '\U{2004}', '\U{2005}', '\U{2006}', '\U{2007}', '\U{2008}', '\U{2009}', '\U{200A}',
     '\U{2028}', '\U{2029}', '\U{202F}', '\U{205F}', '\U{3000}'}

  /** Every character of `s` is one of `cs`. */
  predicate AllIn(s: string, cs: set<char>) {
    forall i :: 0 <= i < |s| ==> s[i] in cs
  }

  /** Neither end of `s` is one of `cs` (vacuous for the empty string). */
  predicate EdgesOutside(s: string, cs: set<char>) {
    s == [] || (s[0] !in cs && s[|s| - 1] !in cs)
  }

  /** `s.lstrip(cs)`: drops characters of `cs` from the front of `s`
      until one outside `cs` comes first. */
  function TrimStart(s: string, cs: set<char>): (r: string)
    ensures |r| <= |s|
    ensures r == [] || r[0] !in cs
  {
    if s != [] && s[0] in cs then TrimStart(s[1..], cs) else s
  }

  /** What `TrimStart` keeps is a suffix of `s`, and all it drops is in `cs`. */
  lemma {:induction false} TrimStartShape(s: string, cs: set<char>)
    ensures var r := TrimStart(s, cs);
      r == s[|s| - |r|..] && AllIn(s[..|s| - |r|], cs)
  {
    if s != [] && s[0] in cs {
      TrimStartShape(s[1..], cs);
      var r := TrimStart(s, cs);
      assert s[1..][|s| - 1 - |r|..] == s[|s| - |r|..];
      forall i | 0 <= i < |s| - |r|
        ensures s[i] in cs
      {
        if i > 0 {
          assert s[i] == s[1..][..|s| - 1 - |r|][i - 1];
        }
      }
    }
  }

  /** `s.rstrip(cs)`: drops characters of `cs` from the end of `s`
      until one outside `cs` comes last. */
  function TrimEnd(s: string, cs: set<char>): (r: string)
    ensures |r| <= |s|
    ensures r == [] || r[|r| - 1] !in cs
    ensures r != [] ==> r[0] == s[0]
  {
    if s != [] && s[|s| - 1] in cs then TrimEnd(s[..|s| - 1], cs) else s
  }

  /** What `TrimEnd` keeps is a prefix of `s`, and all it drops is in `cs`. */
  lemma {:induction false} TrimEndShape(s: string, cs: set<char>)
    ensures var r := TrimEnd(s, cs);
      r == s[..|r|] && AllIn(s[|r|..], cs)
  {
    if s != [] && s[|s| - 1] in cs {
      TrimEndShape(s[..|s| - 1], cs);
      var r := TrimEnd(s, cs);
      assert s[..|s| - 1][..|r|] == s[..|r|];
      forall i | |r| <= i < |s|
        ensures s[i] in cs
      {
        if i < |s| - 1 {
          assert s[i] == s[..|s| - 1][|r|..][i - |r|];
        }
      }
    }
  }

  /** How many characters `Strip` removes from the front of `s`. */
  function StripOffset(s: string, cs: set<char>): nat
  {
    |s| - |TrimStart(s, cs)|
  }

  /** `s.strip(cs)`: drops characters of `cs` from both ends of `s`
      until neither end is one of them. */
  function Strip(s: string, cs: set<char>): (r: string)
    ensures |r| <= |s|
    ensures EdgesOutside(r, cs)
  {
    if s != [] && s[0] in cs then Strip(s[1..], cs)
    else if s != [] && s[|s| - 1] in cs then Strip(s[..|s| - 1], cs)
    else s
  }

  /** Stripping both ends is stripping the front, then the back. */
  lemma {:induction false} StripIsTrims(s: string, cs: set<char>)
    ensures Strip(s, cs) == TrimEnd(TrimStart(s, cs), cs)
  {
    if s != [] && s[0] in cs {
      StripIsTrims(s[1..], cs);
    } else if s != [] && s[|s| - 1] in cs {
      var s' := s[..|s| - 1];
      StripIsTrims(s', cs);
      assert TrimStart(s', cs) == s';
      assert TrimStart(s, cs) == s;
    }
  }

  /** The result of `Strip` is the slice of `s` that starts at
      `StripOffset`, and everything cut off on either side is in `cs`. */
  lemma StripShape(s: string, cs: set<char>)
    ensures var r := Strip(s, cs);
      && StripOffset(s, cs) + |r| <= |s|
      && r == s[StripOffset(s, cs)..StripOffset(s, cs) + |r|]
      && AllIn(s[..StripOffset(s, cs)], cs)
      && AllIn(s[StripOffset(s, cs) + |r|..], cs)
  {
    var t := TrimStart(s, cs);
    var r := TrimEnd(t, cs);
    StripIsTrims(s, cs);
    TrimStartShape(s, cs);
    TrimEndShape(t, cs);
    assert s[StripOffset(s, cs) + |r|..] == t[|r|..];
  }

  /** Stripping is idempotent. */
  lemma StripIdempotent(s: string, cs: set<char>)
    ensures Strip(Strip(s, cs), cs) == Strip(s, cs)
  {
  }

  lemma {:induction false} TrimStartPadded(u: string, m: string, cs: set<char>)
    requires AllIn(u, cs)
    requires m == [] || m[0] !in cs
    ensures TrimStart(u + m, cs) == m
  {
    if u != [] {
      assert (u + m)[1..] == u[1..] + m;
      TrimStartPadded(u[1..], m, cs);
    }
  }

  lemma {:induction false} TrimEndPadded(m: string, v: string, cs: set<char>)
    requires AllIn(v, cs)
    requires m == [] || m[|m| - 1] !in cs
    ensures TrimEnd(m + v, cs) == m
  {
    if v != [] {
      assert (m + v)[..|m + v| - 1] == m + v[..|v| - 1];
      TrimEndPadded(m, v[..|v| - 1], cs);
    } else {
      assert m + v == m;
    }
  }

  /** Stripping undoes padding: a text whose ends are outside `cs`, padded
      on both sides with characters of `cs`, strips back to itself. */
  lemma {:induction false} StripPadded(u: string, m: string, v: string, cs: set<char>)
    requires AllIn(u, cs) && AllIn(v, cs)
    requires EdgesOutside(m, cs)
    ensures Strip(u + m + v, cs) == m
  {
    StripIsTrims(u + m + v, cs);
    if m == [] {
      assert u + m + v == u + v;
      TrimStartPadded(u + v, [], cs);
      assert u + v + [] == u + v;
    } else {
      assert u + m + v == u + (m + v);
      TrimStartPadded(u, m + v, cs);
      TrimEndPadded(m, v, cs);
    }
  }

  /** Total length of a list of strings. */
  function TotalLength(parts: seq<string>): nat
  {
    if parts == [] then 0 else TotalLength(parts[..|parts| - 1]) + |parts[|parts| - 1]|
  }

  /** `sep.join(parts)`. */
  function Join(sep: string, parts: seq<string>): (r: string)
    ensures |parts| == 0 ==> r == ""
    ensures |parts| == 1 ==> r == parts[0]
    ensures |r| == TotalLength(parts) + (if parts == [] then 0 else (|parts| - 1) * |sep|)
  {
    if |parts| == 0 then ""
    else if |parts| == 1 then parts[0]
    else Join(sep, parts[..|parts| - 1]) + sep + parts[|parts| - 1]
  }

  /** Where the `i`-th part starts in `Join(sep, parts)`: after each
      earlier part and the separator behind it. */
  function PartOffset(sep: string, parts: seq<string>, i: nat): nat
    requires i <= |parts|
  {
    if i == 0 then 0 else PartOffset(sep, parts, i - 1) + |parts[i - 1]| + |sep|
  }

  /** Dropping the last part moves no earlier part. */
  lemma {:induction false} PartOffsetInit(sep: string, parts: seq<string>, i: nat)
    requires i < |parts|
    ensures PartOffset(sep, parts[..|parts| - 1], i) == PartOffset(sep, parts, i)
  {
    if i > 0 {
      PartOffsetInit(sep, parts, i - 1);
      assert parts[..|parts| - 1][i - 1] == parts[i - 1];
    }
  }

  /** The join ends with the last part. */
  lemma {:induction false} JoinEnd(sep: string, parts: seq<string>)
    requires parts != []
    ensures |Join(sep, parts)| == PartOffset(sep, parts, |parts| - 1) + |parts[|parts| - 1]|
  {
    var n := |parts|;
    if n > 1 {
      var init := parts[..n - 1];
      JoinEnd(sep, init);
      PartOffsetInit(sep, parts, n - 2);
      assert init[n - 2] == parts[n - 2];
    }
  }

  /** The last part closes the join, right after one separator. */
  lemma JoinLast(sep: string, parts: seq<string>)
    requires parts != []
    ensures var n := |parts|; var o := PartOffset(sep, parts, n - 1);
      && o + |parts[n - 1]| == |Join(sep, parts)|
      && Join(sep, parts)[o..o + |parts[n - 1]|] == parts[n - 1]
      && (n > 1 ==> Join(sep, parts)[o - |sep|..o] == sep)
  {
    var n := |parts|;
    JoinEnd(sep, parts);
    if n > 1 {
      JoinEnd(sep, parts[..n - 1]);
      PartOffsetInit(sep, parts, n - 2);
      assert parts[..n - 1][n - 2] == parts[n - 2];
    }
  }

  /** Appending a part leaves the join of the earlier parts in place. */
  lemma JoinPrefix(sep: string, parts: seq<string>, lo: nat, hi: nat)
    requires |parts| > 1
    requires lo <= hi <= |Join(sep, parts[..|parts| - 1])|
    ensures hi <= |Join(sep, parts)|
    ensures Join(sep, parts)[lo..hi] == Join(sep, parts[..|parts| - 1])[lo..hi]
  {
  }

  /** The layout of a join: part `i` sits at `PartOffset(i)`, and between
      consecutive parts stands exactly one separator. With the length
      stated by `Join`, this fixes every character of the result: `n`
      parts, `n - 1` separators, nothing else. */
  lemma {:induction false} JoinLayout(sep: string, parts: seq<string>, i: nat)
    requires i < |parts|
    ensures PartOffset(sep, parts, i) + |parts[i]| <= |Join(sep, parts)|
    ensures Join(sep, parts)[PartOffset(sep, parts, i)..PartOffset(sep, parts, i) + |parts[i]|] == parts[i]
    ensures i + 1 < |parts| ==>
      PartOffset(sep, parts, i + 1) <= |Join(sep, parts)| &&
      Join(sep, parts)[PartOffset(sep, parts, i) + |parts[i]|..PartOffset(sep, parts, i + 1)] == sep
  {
    var n := |parts|;
    JoinLast(sep, parts);
    if i < n - 1 {
      var init := parts[..n - 1];
      var whole, head := Join(sep, parts), Join(sep, init);
      var o := PartOffset(sep, parts, i);
      var e := o + |parts[i]|;
      JoinLayout(sep, init, i);
      PartOffsetInit(sep, parts, i);
      assert init[i] == parts[i];
      assert head[o..e] == parts[i];
      JoinPrefix(sep, parts, o, e);
      assert whole[o..e] == parts[i];
      var next := PartOffset(sep, parts, i + 1);
      if i + 1 < n - 1 {
        PartOffsetInit(sep, parts, i + 1);
        assert head[e..next] == sep;
        JoinPrefix(sep, parts, e, next);
        assert whole[e..next] == sep;
      } else {
        assert next - |sep| == e;
      }
    }
  }
}
