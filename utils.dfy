/**
 * The storefront client's string helpers: truncation, initials, slugs, and the e-mail and
 * phone-number checks. A string here is a sequence of Unicode scalar values. JavaScript counts
 * and indexes UTF-16 code units instead, so a character outside the Basic Multilingual Plane is
 * one character here and two units there; on strings without such characters the two agree.
 */
module Utils {
  import opened Common

  // ---------------------------------------------------------------------------------------
  // Character classes
  // ---------------------------------------------------------------------------------------

  predicate IsDigit(c: char) { '0' <= c <= '9' }

  predicate IsUpper(c: char) { 'A' <= c <= 'Z' }

  predicate IsLower(c: char) { 'a' <= c <= 'z' }

  /** The regular-expression class `\w` without the `u` flag: ASCII letters, digits and `_`. */
  predicate IsWordChar(c: char) { IsLower(c) || IsUpper(c) || IsDigit(c) || c == '_' }

  /**
   * The JavaScript white-space and line-terminator characters: what `\s` matches and what
   * `trim` removes.
   */
  predicate IsSpace(c: char)
  {
    var n := c as int;
    (0x09 <= n <= 0x0D) || n == 0x20 || n == 0xA0 || n == 0x1680 || (0x2000 <= n <= 0x200A)
    || n == 0x2028 || n == 0x2029 || n == 0x202F || n == 0x205F || n == 0x3000 || n == 0xFEFF
  }

  function ToUpperChar(c: char): (u: char)
    ensures !IsLower(u)
    ensures !IsLower(c) ==> u == c
  {
    if IsLower(c) then (c as int - 32) as char else c
  }

  function ToLowerChar(c: char): (l: char)
    ensures !IsUpper(l)
    ensures !IsUpper(c) ==> l == c
    ensures IsWordChar(l) <==> IsWordChar(c)
    ensures IsSpace(l) <==> IsSpace(c)
  {
    if IsUpper(c) then (c as int + 32) as char else c
  }

  /** `toUpperCase`, on the ASCII letters. */
  function ToUpper(s: string): (r: string)
    ensures |r| == |s|
    ensures forall i :: 0 <= i < |s| ==> r[i] == ToUpperChar(s[i])
  {
    if s == [] then [] else [ToUpperChar(s[0])] + ToUpper(s[1..])
  }

  /** `toLowerCase`, on the ASCII letters. */
  function ToLower(s: string): (r: string)
    ensures |r| == |s|
    ensures forall i :: 0 <= i < |s| ==> r[i] == ToLowerChar(s[i])
    ensures forall c :: c in r ==> !IsUpper(c)
  {
    if s == [] then [] else [ToLowerChar(s[0])] + ToLower(s[1..])
  }

  // ---------------------------------------------------------------------------------------
  // truncate
  // ---------------------------------------------------------------------------------------

  /** The end index that `slice(0, end)` uses: a negative end counts back from the length. */
  function SliceEnd(len: nat, end: int): (k: nat)
    ensures k <= len
    ensures 0 <= end <= len ==> k == end
  {
    if end < 0 then (if len + end < 0 then 0 else len + end)
    else if end > len then len
    else end
  }

  /** `truncate(str, length)`: the string itself if it fits, else a prefix followed by "...". */
  function Truncate(s: string, length: int): (r: string)
    ensures |s| <= length ==> r == s
    ensures 0 <= length < |s| ==> r == s[..length] + "..." && |r| == length + 3
    ensures |s| > length ==> 3 <= |r| <= |s| + 3 && r == s[..|r| - 3] + "..."
    ensures |s| > length && s != [] ==> |r| - 3 < |s|
  {
    if |s| <= length then s
    else s[..SliceEnd(|s|, length)] + "..."
  }

  // ---------------------------------------------------------------------------------------
  // getInitials
  // ---------------------------------------------------------------------------------------

  /** `split(' ')`: the pieces between single spaces, empty pieces included. */
  function SplitOnSpace(s: string): (words: seq<string>)
    ensures |words| >= 1
  {
    if s == [] then [""]
    else
      var rest := SplitOnSpace(s[1..]);
      if s[0] == ' ' then [""] + rest
      else [[s[0]] + rest[0]] + rest[1..]
  }

  /** `join(' ')`, the inverse of SplitOnSpace. */
  function JoinWithSpace(words: seq<string>): string
    requires |words| >= 1
  {
    if |words| == 1 then words[0] else words[0] + " " + JoinWithSpace(words[1..])
  }

  /** Splitting on spaces loses nothing: joining the pieces gives back the string. */
  lemma {:induction false} SplitThenJoin(s: string)
    ensures JoinWithSpace(SplitOnSpace(s)) == s
    ensures forall w :: w in SplitOnSpace(s) ==> ' ' !in w
  {
    if s != [] {
      var rest := SplitOnSpace(s[1..]);
      SplitThenJoin(s[1..]);
      if s[0] == ' ' {
        assert SplitOnSpace(s) == [""] + rest;
        assert s == [s[0]] + s[1..];
      } else {
        var words := SplitOnSpace(s);
        assert words == [[s[0]] + rest[0]] + rest[1..];
        assert words[1..] == rest[1..];
        if |rest| > 1 {
          assert JoinWithSpace(rest) == rest[0] + " " + JoinWithSpace(rest[1..]);
        }
        assert s == [s[0]] + s[1..];
        forall w | w in words ensures ' ' !in w {
          if w != words[0] {
            assert w in rest;
          }
        }
      }
    }
  }

  /** `map((n) => n[0]).join('')`: an empty piece gives `undefined`, which joins as "". */
  function FirstChars(words: seq<string>): string
  {
    if words == [] then []
    else (if words[0] == [] then [] else [words[0][0]]) + FirstChars(words[1..])
  }

  /**
   * The reference reading of "initials": scanning left to right, the characters that are
   * not a space and stand at the start of the string or right after a space.
   */
  function WordStarts(s: string, afterSpace: bool): string
  {
    if s == [] then []
    else (if afterSpace && s[0] != ' ' then [s[0]] else []) + WordStarts(s[1..], s[0] == ' ')
  }

  /** The first characters of the pieces of `split(' ')` are exactly the word starts. */
  lemma {:induction false} FirstCharsAreWordStarts(s: string)
    ensures FirstChars(SplitOnSpace(s)) == WordStarts(s, true)
    ensures FirstChars(SplitOnSpace(s)[1..]) == WordStarts(s, false)
  {
    if s != [] {
      var rest := SplitOnSpace(s[1..]);
      FirstCharsAreWordStarts(s[1..]);
      if s[0] == ' ' {
        assert SplitOnSpace(s) == [""] + rest;
        assert SplitOnSpace(s)[1..] == rest;
      } else {
        assert SplitOnSpace(s) == [[s[0]] + rest[0]] + rest[1..];
        assert SplitOnSpace(s)[1..] == rest[1..];
      }
    }
  }

  /** `getInitials(name)`: the upper-cased first characters of the words, at most two. */
  function GetInitials(name: string): (r: string)
    ensures |r| <= 2
    ensures forall i :: 0 <= i < |r| ==> !IsLower(r[i])
  {
    var all := ToUpper(FirstChars(SplitOnSpace(name)));
    all[..if |all| < 2 then |all| else 2]
  }

  /** The initials are the first two word starts of the name, upper-cased, in order. */
  lemma InitialsAreLeadingWordStarts(name: string)
    ensures var starts := WordStarts(name, true);
      GetInitials(name) == ToUpper(starts[..if |starts| < 2 then |starts| else 2])
  {
    FirstCharsAreWordStarts(name);
  }

  // ---------------------------------------------------------------------------------------
  // slugify
  // ---------------------------------------------------------------------------------------

  /** How many white-space characters s starts with. */
  function LeadingSpaces(s: string): (n: nat)
    ensures n <= |s|
    ensures forall k :: 0 <= k < n ==> IsSpace(s[k])
    ensures n == |s| || !IsSpace(s[n])
  {
    if s != [] && IsSpace(s[0]) then
      var n := 1 + LeadingSpaces(s[1..]);
      assert forall k :: 1 <= k < n ==> s[k] == s[1..][k - 1];
      n
    else 0
  }

  /** The length of s without its trailing white space. */
  function SpaceFreeLength(s: string): (m: nat)
    ensures m <= |s|
    ensures forall k :: m <= k < |s| ==> IsSpace(s[k])
    ensures m == 0 || !IsSpace(s[m - 1])
  {
    if s != [] && IsSpace(s[|s| - 1]) then
      var m := SpaceFreeLength(s[..|s| - 1]);
      assert forall k :: m <= k < |s| - 1 ==> s[k] == s[..|s| - 1][k];
      m
    else |s|
  }

  /**
   * `trim()`: drop the leading white space, then the trailing white space. TrimIsInfix says
   * which part of s this keeps.
   */
  function Trim(s: string): (r: string)
    ensures forall c :: c in r ==> c in s
    ensures r == [] || (!IsSpace(r[0]) && !IsSpace(r[|r| - 1]))
  {
    var t := s[LeadingSpaces(s)..];
    t[..SpaceFreeLength(t)]
  }

  /**
   * `trim()` keeps the infix of s that starts after its leading white space and ends before
   * its trailing white space; all it drops, at either end, is white space.
   */
  lemma TrimIsInfix(s: string)
    ensures var r := Trim(s); var n := LeadingSpaces(s);
      && n + |r| <= |s| && r == s[n..n + |r|]
      && (forall k :: 0 <= k < n ==> IsSpace(s[k]))
      && (forall k :: n + |r| <= k < |s| ==> IsSpace(s[k]))
  {
    var n := LeadingSpaces(s);
    var t := s[n..];
    var m := SpaceFreeLength(t);
    forall k | n + m <= k < |s| ensures IsSpace(s[k]) {
      assert s[k] == t[k - n];
    }
  }

  /** The characters `replace(/[^\w\s-]/g, '')` keeps. */
  predicate IsKept(c: char) { IsWordChar(c) || IsSpace(c) || c == '-' }

  /** `replace(/[^\w\s-]/g, '')`: drop every character outside `\w`, `\s` and `-`. */
  function KeepSlugChars(s: string): (r: string)
    ensures |r| <= |s|
    ensures forall c :: c in r <==> c in s && IsKept(c)
  {
    if s == [] then []
    else if IsKept(s[0]) then [s[0]] + KeepSlugChars(s[1..])
    else KeepSlugChars(s[1..])
  }

  /**
   * The filter works character by character, in order: it distributes over concatenation
   * and keeps a single character exactly when it is kept.
   */
  lemma {:induction false} KeepSlugCharsSplit(a: string, b: string)
    ensures KeepSlugChars(a + b) == KeepSlugChars(a) + KeepSlugChars(b)
    ensures forall c :: KeepSlugChars([c]) == if IsKept(c) then [c] else []
  {
    if a != [] {
      assert (a + b)[0] == a[0] && (a + b)[1..] == a[1..] + b;
      KeepSlugCharsSplit(a[1..], b);
      if IsKept(a[0]) {
        assert KeepSlugChars(a + b) == [a[0]] + (KeepSlugChars(a[1..]) + KeepSlugChars(b));
      }
    } else {
      assert a + b == b;
    }
    forall c ensures KeepSlugChars([c]) == if IsKept(c) then [c] else [] {
      assert [c][1..] == [];
    }
  }

  /** The class `[\s_-]`. */
  predicate IsSep(c: char) { IsSpace(c) || c == '_' || c == '-' }

  /**
   * `replace(/[\s_-]+/g, '-')`, scanning left to right: the first separator of a run writes
   * one `-`, the rest of the run writes nothing. `inRun` says the previous character was a
   * separator.
   */
  function CollapseFrom(s: string, inRun: bool): (r: string)
    ensures forall c :: c in r ==> c == '-' || (c in s && !IsSep(c))
    ensures s != [] && !IsSep(s[0]) ==> r != [] && r[0] == s[0]
    ensures inRun ==> r == [] || r[0] != '-'
    ensures NoDoubleDash(r)
  {
    if s == [] then []
    else if IsSep(s[0]) then
      var rest := CollapseFrom(s[1..], true);
      if inRun then rest
      else
        DashFreeCons('-', rest);
        "-" + rest
    else
      var rest := CollapseFrom(s[1..], false);
      DashFreeCons(s[0], rest);
      [s[0]] + rest
  }

  /** Every maximal run of separators becomes one `-`. */
  function CollapseSeps(s: string): (r: string)
    ensures forall c :: c in r ==> c == '-' || (c in s && !IsSep(c))
    ensures NoDoubleDash(r)
  {
    CollapseFrom(s, false)
  }

  /** Scanning a + b is scanning a, then scanning b in the state a left. */
  lemma {:induction false} CollapseFromSplit(a: string, b: string, inRun: bool)
    ensures CollapseFrom(a + b, inRun) ==
      CollapseFrom(a, inRun) + CollapseFrom(b, if a == [] then inRun else IsSep(a[|a| - 1]))
  {
    if a == [] {
      assert a + b == b;
    } else {
      var head := if !IsSep(a[0]) then [a[0]] else if inRun then [] else "-";
      var x := CollapseFrom(a[1..], IsSep(a[0]));
      var y := CollapseFrom(b, IsSep(a[|a| - 1]));
      assert |a| > 1 ==> a[1..][|a| - 2] == a[|a| - 1];
      CollapseFromSplit(a[1..], b, IsSep(a[0]));
      assert CollapseFrom(a[1..] + b, IsSep(a[0])) == x + y;
      CollapseFromStep(a, b, inRun);
      ConcatAssoc(head, x, y);
    }
  }

  lemma ConcatAssoc(a: string, b: string, c: string)
    ensures a + (b + c) == (a + b) + c
  {
  }

  /** One step of the scan, on a and on a + b: what the first character writes. */
  lemma CollapseFromStep(a: string, b: string, inRun: bool)
    requires a != []
    ensures var head := if !IsSep(a[0]) then [a[0]] else if inRun then [] else "-";
      && CollapseFrom(a, inRun) == head + CollapseFrom(a[1..], IsSep(a[0]))
      && CollapseFrom(a + b, inRun) == head + CollapseFrom(a[1..] + b, IsSep(a[0]))
  {
    assert (a + b)[0] == a[0] && (a + b)[1..] == a[1..] + b;
  }

  /** The state only matters when the input starts with a separator. */
  lemma CollapseFromStart(s: string)
    requires s == [] || !IsSep(s[0])
    ensures CollapseFrom(s, true) == CollapseFrom(s, false)
  {
  }

  /**
   * Collapsing works run by run: splitting the input anywhere but inside a run of separators
   * splits the output at the same place.
   */
  lemma CollapseSepsSplit(a: string, b: string)
    requires a == [] || b == [] || !(IsSep(a[|a| - 1]) && IsSep(b[0]))
    ensures CollapseSeps(a + b) == CollapseSeps(a) + CollapseSeps(b)
  {
    CollapseFromSplit(a, b, false);
    if a != [] && IsSep(a[|a| - 1]) {
      CollapseFromStart(b);
    }
  }

  /** Inside a run, further separators write nothing. */
  lemma {:induction false} CollapseRunTail(run: string)
    requires forall k :: 0 <= k < |run| ==> IsSep(run[k])
    ensures CollapseFrom(run, true) == []
  {
    if run != [] {
      assert forall k :: 0 <= k < |run| - 1 ==> run[1..][k] == run[k + 1];
      CollapseRunTail(run[1..]);
    }
  }

  /** The pieces: a non-separator stays as it is, and a whole run of separators becomes `-`. */
  lemma CollapseSepsPieces(c: char, run: string)
    requires forall k :: 0 <= k < |run| ==> IsSep(run[k])
    ensures !IsSep(c) ==> CollapseSeps([c]) == [c]
    ensures run != [] ==> CollapseSeps(run) == "-"
  {
    assert [c][1..] == [];
    assert !IsSep(c) ==> CollapseFrom([c], false) == [c] + CollapseFrom([], false);
    if run != [] {
      assert forall k :: 0 <= k < |run| - 1 ==> run[1..][k] == run[k + 1];
      CollapseRunTail(run[1..]);
    }
  }

  /** A character in front of a string without double dashes adds none unless both are dashes. */
  lemma DashFreeCons(c: char, rest: string)
    requires NoDoubleDash(rest)
    requires c == '-' ==> rest == [] || rest[0] != '-'
    ensures NoDoubleDash([c] + rest)
  {
    var r := [c] + rest;
    forall i | 0 <= i < |r| - 1 ensures !(r[i] == '-' && r[i + 1] == '-') {
      if i > 0 {
        assert r[i] == rest[i - 1] && r[i + 1] == rest[i];
      }
    }
  }

  /** How many dashes s starts with. */
  function LeadingDashes(s: string): (n: nat)
    ensures n <= |s|
    ensures forall k :: 0 <= k < n ==> s[k] == '-'
    ensures n == |s| || s[n] != '-'
  {
    if s != [] && s[0] == '-' then
      var n := 1 + LeadingDashes(s[1..]);
      assert forall k :: 1 <= k < n ==> s[k] == s[1..][k - 1];
      n
    else 0
  }

  /** The length of s without its trailing dashes. */
  function DashFreeLength(s: string): (m: nat)
    ensures m <= |s|
    ensures forall k :: m <= k < |s| ==> s[k] == '-'
    ensures m == 0 || s[m - 1] != '-'
  {
    if s != [] && s[|s| - 1] == '-' then
      var m := DashFreeLength(s[..|s| - 1]);
      assert forall k :: m <= k < |s| - 1 ==> s[k] == s[..|s| - 1][k];
      m
    else |s|
  }

  /**
   * `replace(/^-+|-+$/g, '')`: drop the leading dashes, then the trailing ones.
   * StripDashesIsInfix says which part of s this keeps.
   */
  function StripDashes(s: string): (r: string)
    ensures forall c :: c in r ==> c in s
    ensures r == [] || (r[0] != '-' && r[|r| - 1] != '-')
    ensures NoDoubleDash(s) ==> NoDoubleDash(r)
  {
    var n := LeadingDashes(s);
    var t := s[n..];
    var r := t[..DashFreeLength(t)];
    NoDoubleDashInfix(s, n, r);
    r
  }

  /** No two adjacent dashes. */
  predicate NoDoubleDash(s: string)
  {
    forall i :: 0 <= i < |s| - 1 ==> !(s[i] == '-' && s[i + 1] == '-')
  }

  /** An infix of a string without double dashes has none. */
  lemma NoDoubleDashInfix(s: string, n: nat, t: string)
    requires n + |t| <= |s| && t == s[n..n + |t|]
    ensures NoDoubleDash(s) ==> NoDoubleDash(t)
  {
    forall i | 0 <= i < |t| - 1 && NoDoubleDash(s) ensures !(t[i] == '-' && t[i + 1] == '-') {
      assert t[i] == s[n + i] && t[i + 1] == s[n + i + 1];
    }
  }

  /**
   * `replace(/^-+|-+$/g, '')` keeps the infix of s that starts after its leading dashes and
   * ends before its trailing dashes; all it drops, at either end, is dashes.
   */
  lemma StripDashesIsInfix(s: string)
    ensures var r := StripDashes(s); var n := LeadingDashes(s);
      && n + |r| <= |s| && r == s[n..n + |r|]
      && (forall k :: 0 <= k < n ==> s[k] == '-')
      && (forall k :: n + |r| <= k < |s| ==> s[k] == '-')
  {
    var n := LeadingDashes(s);
    var t := s[n..];
    var m := DashFreeLength(t);
    forall k | n + m <= k < |s| ensures s[k] == '-' {
      assert s[k] == t[k - n];
    }
  }

  predicate IsSlugChar(c: char) { IsLower(c) || IsDigit(c) || c == '-' }

  /** A well-formed slug: `[a-z0-9-]` only, no dash at either end, no two dashes in a row. */
  predicate IsSlug(s: string)
  {
    && (forall i :: 0 <= i < |s| ==> IsSlugChar(s[i]))
    && (s == [] || (s[0] != '-' && s[|s| - 1] != '-'))
    && NoDoubleDash(s)
  }

  /** `slugify(str)`. */
  function Slugify(s: string): (r: string)
    ensures IsSlug(r)
  {
    var lowered := ToLower(s);
    var trimmed := Trim(lowered);
    var kept := KeepSlugChars(trimmed);
    var collapsed := CollapseSeps(kept);
    var r := StripDashes(collapsed);
    forall i | 0 <= i < |r| ensures IsSlugChar(r[i]) {
      SlugCharOf(r[i], lowered, trimmed, kept, collapsed, r);
    }
    r
  }

  /** A character that survives every stage of slugify is a slug character. */
  lemma SlugCharOf(c: char, lowered: string, trimmed: string, kept: string, collapsed: string, r: string)
    requires forall c :: c in lowered ==> !IsUpper(c)
    requires forall c :: c in trimmed ==> c in lowered
    requires forall c :: c in kept ==> c in trimmed && IsKept(c)
    requires forall c :: c in collapsed ==> c == '-' || (c in kept && !IsSep(c))
    requires forall c :: c in r ==> c in collapsed
    requires c in r
    ensures IsSlugChar(c)
  {
  }

  lemma {:induction false} ToLowerOfSlug(s: string)
    requires forall i :: 0 <= i < |s| ==> IsSlugChar(s[i])
    ensures ToLower(s) == s
  {
  }

  lemma {:induction false} KeepOfSlug(s: string)
    requires forall i :: 0 <= i < |s| ==> IsSlugChar(s[i])
    ensures KeepSlugChars(s) == s
  {
    if s != [] {
      KeepOfSlug(s[1..]);
    }
  }

  /** The tail of a dash-terminated-free slug body is again one. */
  lemma SlugBodyTail(s: string)
    requires s != []
    requires forall i :: 0 <= i < |s| ==> IsSlugChar(s[i])
    requires NoDoubleDash(s) && s[|s| - 1] != '-'
    ensures forall i :: 0 <= i < |s| - 1 ==> IsSlugChar(s[1..][i])
    ensures NoDoubleDash(s[1..]) && (|s| == 1 || s[1..][|s| - 2] != '-')
    ensures s[0] == '-' ==> |s| > 1 && s[1] != '-'
  {
    var t := s[1..];
    forall i | 0 <= i < |t| ensures IsSlugChar(t[i]) {
      assert t[i] == s[i + 1];
    }
    forall i | 0 <= i < |t| - 1 ensures !(t[i] == '-' && t[i + 1] == '-') {
      assert t[i] == s[i + 1] && t[i + 1] == s[i + 2];
    }
  }

  lemma {:induction false} CollapseOfSlugBody(s: string)
    requires forall i :: 0 <= i < |s| ==> IsSlugChar(s[i])
    requires NoDoubleDash(s) && (s == [] || s[|s| - 1] != '-')
    ensures CollapseSeps(s) == s
  {
    if s != [] {
      SlugBodyTail(s);
      CollapseOfSlugBody(s[1..]);
      if s[0] == '-' {
        assert IsSlugChar(s[1..][0]);
        CollapseKeepsDash(s);
      } else {
        assert IsSlugChar(s[0]);
        CollapseKeepsChar(s);
      }
    }
  }

  /** A non-separator in front of a string that collapsing leaves alone stays. */
  lemma CollapseKeepsChar(s: string)
    requires s != [] && !IsSep(s[0])
    requires CollapseSeps(s[1..]) == s[1..]
    ensures CollapseSeps(s) == s
  {
    assert s == [s[0]] + s[1..];
    assert CollapseFrom(s, false) == [s[0]] + CollapseFrom(s[1..], false);
  }

  /** A lone dash in front of a string that collapsing leaves alone stays. */
  lemma CollapseKeepsDash(s: string)
    requires |s| > 1 && s[0] == '-' && !IsSep(s[1])
    requires CollapseSeps(s[1..]) == s[1..]
    ensures CollapseSeps(s) == s
  {
    CollapseFromStart(s[1..]);
    assert CollapseFrom(s, false) == "-" + CollapseFrom(s[1..], true);
    assert s == "-" + s[1..];
  }

  /** A slug passes through slugify unchanged. */
  lemma SlugifyFixesSlugs(s: string)
    requires IsSlug(s)
    ensures Slugify(s) == s
  {
    ToLowerOfSlug(s);
    TrimOfSlug(s);
    KeepOfSlug(s);
    CollapseOfSlugBody(s);
    StripDashesOfSlug(s);
  }

  /** A slug has no white space to trim. */
  lemma TrimOfSlug(s: string)
    requires IsSlug(s)
    ensures Trim(s) == s
  {
    if s != [] {
      assert IsSlugChar(s[0]) && IsSlugChar(s[|s| - 1]);
      assert LeadingSpaces(s) == 0 && s[0..] == s;
      assert SpaceFreeLength(s) == |s| && s[..|s|] == s;
    }
  }

  /** A slug has no dash at either end to strip. */
  lemma StripDashesOfSlug(s: string)
    requires IsSlug(s)
    ensures StripDashes(s) == s
  {
    if s != [] {
      assert LeadingDashes(s) == 0 && s[0..] == s;
      assert DashFreeLength(s) == |s| && s[..|s|] == s;
    }
  }

  /** slugify is idempotent. */
  lemma SlugifyIdempotent(s: string)
    ensures Slugify(Slugify(s)) == Slugify(s)
  {
    SlugifyFixesSlugs(Slugify(s));
  }

  // ---------------------------------------------------------------------------------------
  // isValidEmail
  // ---------------------------------------------------------------------------------------

  /** The class `[^\s@]`. */
  predicate IsEmailChar(c: char) { !IsSpace(c) && c != '@' }

  predicate AllEmailChars(s: string) { forall k :: 0 <= k < |s| ==> IsEmailChar(s[k]) }

  /**
   * The pattern `^[^\s@]+@[^\s@]+\.[^\s@]+$` matches s with its `@` at i and its `.` at j:
   * three non-empty runs of `[^\s@]` separated by the two literals.
   */
  ghost predicate EmailSplit(s: string, i: int, j: int)
  {
    && 0 < i && i + 1 < j && j + 1 < |s|
    && s[i] == '@' && s[j] == '.'
    && AllEmailChars(s[..i]) && AllEmailChars(s[i + 1..j]) && AllEmailChars(s[j + 1..])
  }

  /** The language of the e-mail pattern. */
  ghost predicate MatchesEmailPattern(s: string)
  {
    exists i, j :: EmailSplit(s, i, j)
  }

  /** The first index of c in s, or |s| when c does not occur. */
  function IndexOf(s: string, c: char): (k: nat)
    ensures k <= |s|
    ensures forall m :: 0 <= m < k ==> s[m] != c
    ensures k < |s| ==> s[k] == c
  {
    if s == [] then 0 else if s[0] == c then 0 else 1 + IndexOf(s[1..], c)
  }

  /** A `.` that is neither the first nor the last character. */
  predicate HasInnerDot(d: string)
  {
    exists k | 0 < k < |d| - 1 :: d[k] == '.'
  }

  /**
   * `isValidEmail(email)`, read as: no white space, exactly one `@`, something before it,
   * and a `.` strictly inside the part after it.
   */
  predicate IsValidEmail(s: string)
  {
    && (forall k | 0 <= k < |s| :: !IsSpace(s[k]))
    && multiset(s)['@'] == 1
    && 0 < IndexOf(s, '@') < |s|
    && HasInnerDot(s[IndexOf(s, '@') + 1..])
  }

  lemma NoAtNoCount(t: string)
    requires forall k :: 0 <= k < |t| ==> t[k] != '@'
    ensures multiset(t)['@'] == 0
  {
  }

  lemma SplitAround(s: string, i: int)
    requires 0 <= i < |s|
    ensures multiset(s) == multiset(s[..i]) + multiset{s[i]} + multiset(s[i + 1..])
  {
    assert s == s[..i] + [s[i]] + s[i + 1..];
  }

  /** The e-mail check accepts exactly the language of its pattern. */
  lemma EmailCheckMatchesPattern(s: string)
    ensures IsValidEmail(s) <==> MatchesEmailPattern(s)
  {
    if IsValidEmail(s) {
      SplitOfValidEmail(s);
    }
    if MatchesEmailPattern(s) {
      var i, j :| EmailSplit(s, i, j);
      ValidEmailOfSplit(s, i, j);
    }
  }

  /** A string the check accepts splits as the pattern requires. */
  lemma SplitOfValidEmail(s: string)
    requires IsValidEmail(s)
    ensures MatchesEmailPattern(s)
  {
    var i := IndexOf(s, '@');
    var d := s[i + 1..];
    var k :| 0 < k < |d| - 1 && d[k] == '.';
    var j := i + 1 + k;
    SplitAround(s, i);
    assert EmailSplit(s, i, j);
  }

  /** A string the pattern matches passes the check. */
  lemma ValidEmailOfSplit(s: string, i: int, j: int)
    requires EmailSplit(s, i, j)
    ensures IsValidEmail(s)
  {
    SplitHasNoSpace(s, i, j);
    SplitHasOneAt(s, i, j);
    var d := s[i + 1..];
    assert d[j - i - 1] == '.';
    assert HasInnerDot(d);
  }

  lemma SplitHasNoSpace(s: string, i: int, j: int)
    requires EmailSplit(s, i, j)
    ensures forall k | 0 <= k < |s| :: !IsSpace(s[k])
  {
    forall k | 0 <= k < |s| ensures !IsSpace(s[k]) {
      if k < i {
        assert s[k] == s[..i][k];
      } else if i < k < j {
        assert s[k] == s[i + 1..j][k - i - 1];
      } else if j < k {
        assert s[k] == s[j + 1..][k - j - 1];
      }
    }
  }

  lemma SplitHasOneAt(s: string, i: int, j: int)
    requires EmailSplit(s, i, j)
    ensures IndexOf(s, '@') == i && multiset(s)['@'] == 1
  {
    forall m | 0 <= m < i ensures s[m] != '@' {
      assert s[m] == s[..i][m];
    }
    var t := s[i + 1..];
    forall m | 0 <= m < |t| ensures t[m] != '@' {
      var k := i + 1 + m;
      assert t[m] == s[k];
      if k < j {
        assert s[k] == s[i + 1..j][k - i - 1];
      } else if j < k {
        assert s[k] == s[j + 1..][k - j - 1];
      }
    }
    NoAtNoCount(s[..i]);
    NoAtNoCount(t);
    SplitAround(s, i);
  }

  // ---------------------------------------------------------------------------------------
  // isValidPhone
  // ---------------------------------------------------------------------------------------

  /** The class `[-\s\.]`. */
  predicate IsPhoneSep(c: char) { c == '-' || IsSpace(c) || c == '.' }

  /** `[0-9]*`. */
  predicate AllDigits(s: string) { s == [] || (IsDigit(s[0]) && AllDigits(s[1..])) }

  /** A digit is none of the optional characters of the phone pattern. */
  lemma DigitIsNoPunctuation(c: char)
    requires IsDigit(c)
    ensures !IsPhoneSep(c) && c != '+' && c != '(' && c != ')'
  {
    assert 0x30 <= c as int <= 0x39;
  }

  lemma DigitIsNoPunctuationConverse(c: char)
    requires IsPhoneSep(c)
    ensures !IsDigit(c)
  {
    if IsDigit(c) {
      DigitIsNoPunctuation(c);
    }
  }

  /**
   * One way of filling in `^[\+]?[(]?[0-9]{3}[)]?[-\s\.]?[0-9]{3}[-\s\.]?[0-9]{4,6}$`:
   * which optional characters are present, and the three digit groups.
   */
  datatype PhoneShape = PhoneShape(
    plus: bool, open: bool, area: string, close: bool,
    sep1: Option<char>, exchange: string, sep2: Option<char>, line: string)

  predicate IsPhoneShape(p: PhoneShape)
  {
    && |p.area| == 3 && AllDigits(p.area)
    && |p.exchange| == 3 && AllDigits(p.exchange)
    && 4 <= |p.line| <= 6 && AllDigits(p.line)
    && (p.sep1.Some? ==> IsPhoneSep(p.sep1.value))
    && (p.sep2.Some? ==> IsPhoneSep(p.sep2.value))
  }

  function OptChar(present: bool, c: char): string { if present then [c] else [] }

  function OptSep(sep: Option<char>): string { if sep.Some? then [sep.value] else [] }

  /** The string a shape spells out. */
  function Render(p: PhoneShape): string
  {
    OptChar(p.plus, '+') + (OptChar(p.open, '(') + (p.area + (OptChar(p.close, ')')
    + (OptSep(p.sep1) + (p.exchange + (OptSep(p.sep2) + p.line))))))
  }

  /** The language of the phone pattern. */
  ghost predicate MatchesPhonePattern(s: string)
  {
    exists p :: IsPhoneShape(p) && Render(p) == s
  }

  /** An optional literal character: taken when it is there. */
  function TakeChar(s: string, c: char): (r: (bool, string))
    ensures r.0 <==> s != [] && s[0] == c
    ensures s == OptChar(r.0, c) + r.1
  {
    if s != [] && s[0] == c then (true, s[1..]) else (false, s)
  }

  /** An optional separator `[-\s\.]?`: taken when it is there. */
  function TakeSep(s: string): (r: (Option<char>, string))
    ensures r.0.Some? <==> s != [] && IsPhoneSep(s[0])
    ensures r.0.Some? ==> IsPhoneSep(r.0.value)
    ensures s == OptSep(r.0) + r.1
  {
    if s != [] && IsPhoneSep(s[0]) then (Some(s[0]), s[1..]) else (None, s)
  }

  /** Exactly three digits `[0-9]{3}`, if the string starts with them. */
  function TakeThreeDigits(s: string): (r: Option<(string, string)>)
    ensures r.Some? <==> |s| >= 3 && AllDigits(s[..3])
    ensures r.Some? ==> |r.value.0| == 3 && AllDigits(r.value.0) && s == r.value.0 + r.value.1
  {
    if |s| >= 3 && AllDigits(s[..3]) then Some((s[..3], s[3..])) else None
  }

  /**
   * Reads the pattern's elements left to right. Every optional element is a character that
   * is not a digit and is followed by a digit group, so taking it whenever it is there is the
   * only way to match.
   */
  function ParsePhone(s: string): (r: Option<PhoneShape>)
    ensures r.Some? ==> IsPhoneShape(r.value) && Render(r.value) == s
  {
    var (plus, s1) := TakeChar(s, '+');
    var (open, s2) := TakeChar(s1, '(');
    ParseFromArea(plus, open, s2)
  }

  /** The pattern from the area code on, after the optional `+` and `(` were read. */
  function ParseFromArea(plus: bool, open: bool, s2: string): (r: Option<PhoneShape>)
    ensures r.Some? ==> && IsPhoneShape(r.value) && r.value.plus == plus && r.value.open == open
                        && AreaOnwards(r.value) == s2
  {
    match TakeThreeDigits(s2)
    case None => None
    case Some((area, s3)) =>
      var (close, s4) := TakeChar(s3, ')');
      var (sep1, s5) := TakeSep(s4);
      ParseFromExchange(plus, open, area, close, sep1, s5)
  }

  /** The pattern from the exchange on, with everything before it already read. */
  function ParseFromExchange(plus: bool, open: bool, area: string, close: bool, sep1: Option<char>, s5: string)
    : (r: Option<PhoneShape>)
    ensures r.Some? ==>
      && r.value == PhoneShape(plus, open, area, close, sep1, r.value.exchange, r.value.sep2, r.value.line)
      && |r.value.exchange| == 3 && AllDigits(r.value.exchange)
      && 4 <= |r.value.line| <= 6 && AllDigits(r.value.line)
      && (r.value.sep2.Some? ==> IsPhoneSep(r.value.sep2.value))
      && s5 == r.value.exchange + (OptSep(r.value.sep2) + r.value.line)
  {
    match TakeThreeDigits(s5)
    case None => None
    case Some((exchange, s6)) =>
      var (sep2, s7) := TakeSep(s6);
      if 4 <= |s7| <= 6 && AllDigits(s7) then
        Some(PhoneShape(plus, open, area, close, sep1, exchange, sep2, s7))
      else None
  }

  /** `isValidPhone(phone)`. */
  predicate IsValidPhone(s: string)
  {
    ParsePhone(s).Some?
  }

  lemma TakeCharOf(b: bool, c: char, t: string)
    requires t == [] || t[0] != c
    ensures TakeChar(OptChar(b, c) + t, c) == (b, t)
  {
    if b {
      assert (OptChar(b, c) + t)[1..] == t;
    } else {
      assert OptChar(b, c) + t == t;
    }
  }

  lemma TakeSepOf(o: Option<char>, t: string)
    requires o.Some? ==> IsPhoneSep(o.value)
    requires t == [] || !IsPhoneSep(t[0])
    ensures TakeSep(OptSep(o) + t) == (o, t)
  {
    if o.Some? {
      assert (OptSep(o) + t)[1..] == t;
    } else {
      assert OptSep(o) + t == t;
    }
  }

  lemma TakeThreeDigitsOf(d: string, t: string)
    requires |d| == 3 && AllDigits(d)
    ensures TakeThreeDigits(d + t) == Some((d, t))
  {
    assert (d + t)[..3] == d && (d + t)[3..] == t;
  }

  /** Parsing what a shape spells out gives back that shape. */
  lemma ParseRender(p: PhoneShape)
    requires IsPhoneShape(p)
    ensures ParsePhone(Render(p)) == Some(p)
  {
    var s2 := AreaOnwards(p);
    var s1 := OptChar(p.open, '(') + s2;
    DigitIsNoPunctuation(p.area[0]);
    assert s2[0] == p.area[0];
    assert s1[0] == (if p.open then '(' else p.area[0]);
    TakeCharOf(p.plus, '+', s1);
    TakeCharOf(p.open, '(', s2);
    ParseFromAreaOf(p);
  }

  lemma ParseFromAreaOf(p: PhoneShape)
    requires IsPhoneShape(p)
    ensures ParseFromArea(p.plus, p.open, AreaOnwards(p)) == Some(p)
  {
    var s5 := p.exchange + (OptSep(p.sep2) + p.line);
    var s4 := OptSep(p.sep1) + s5;
    var s3 := OptChar(p.close, ')') + s4;
    DigitIsNoPunctuation(p.exchange[0]);
    assert s5[0] == p.exchange[0];
    assert s4[0] == (if p.sep1.Some? then p.sep1.value else p.exchange[0]);
    TakeThreeDigitsOf(p.area, s3);
    TakeCharOf(p.close, ')', s4);
    TakeSepOf(p.sep1, s5);
    ParseFromExchangeOf(p);
  }

  lemma ParseFromExchangeOf(p: PhoneShape)
    requires IsPhoneShape(p)
    ensures ParseFromExchange(p.plus, p.open, p.area, p.close, p.sep1, p.exchange + (OptSep(p.sep2) + p.line)) == Some(p)
  {
    DigitIsNoPunctuation(p.line[0]);
    TakeThreeDigitsOf(p.exchange, OptSep(p.sep2) + p.line);
    TakeSepOf(p.sep2, p.line);
  }

  /** The phone check accepts exactly the language of its pattern. */
  lemma PhoneCheckMatchesPattern(s: string)
    ensures IsValidPhone(s) <==> MatchesPhonePattern(s)
  {
    if MatchesPhonePattern(s) {
      var p :| IsPhoneShape(p) && Render(p) == s;
      ParseRender(p);
    }
  }

  /** The number of decimal digits in s. */
  function DigitCount(s: string): (n: nat)
    ensures n <= |s|
  {
    if s == [] then 0 else (if IsDigit(s[0]) then 1 else 0) + DigitCount(s[1..])
  }

  lemma {:induction false} DigitCountAppend(a: string, b: string)
    ensures DigitCount(a + b) == DigitCount(a) + DigitCount(b)
  {
    if a == [] {
      assert a + b == b;
    } else {
      assert (a + b)[0] == a[0];
      assert (a + b)[1..] == a[1..] + b;
      DigitCountAppend(a[1..], b);
    }
  }

  lemma {:induction false} DigitCountAll(s: string)
    requires AllDigits(s)
    ensures DigitCount(s) == |s|
  {
    if s != [] {
      DigitCountAll(s[1..]);
    }
  }

  /** An optional non-digit in front adds no digit. */
  lemma DigitCountPunct(x: string, t: string)
    requires |x| <= 1 && (x == [] || !IsDigit(x[0]))
    ensures DigitCount(x + t) == DigitCount(t)
  {
    if x == [] {
      assert x + t == t;
    } else {
      assert (x + t)[1..] == t;
    }
  }

  /** A digit group in front adds its length. */
  lemma DigitCountDigits(d: string, t: string)
    requires AllDigits(d)
    ensures DigitCount(d + t) == |d| + DigitCount(t)
  {
    DigitCountAppend(d, t);
    DigitCountAll(d);
  }

  /** A digit group followed by an optional separator. */
  lemma DigitGroupCount(d: string, sep: Option<char>, t: string)
    requires AllDigits(d) && (sep.Some? ==> IsPhoneSep(sep.value))
    ensures DigitCount(d + (OptSep(sep) + t)) == |d| + DigitCount(t)
  {
    if sep.Some? { DigitIsNoPunctuationConverse(sep.value); }
    DigitCountPunct(OptSep(sep), t);
    DigitCountDigits(d, OptSep(sep) + t);
  }

  /** The part of a shape from the area code on. */
  function AreaOnwards(p: PhoneShape): string
  {
    p.area + (OptChar(p.close, ')') + (OptSep(p.sep1) + (p.exchange + (OptSep(p.sep2) + p.line))))
  }

  lemma AreaOnwardsDigitCount(p: PhoneShape)
    requires IsPhoneShape(p)
    ensures 10 <= DigitCount(AreaOnwards(p)) <= 12
    ensures |AreaOnwards(p)| - DigitCount(AreaOnwards(p)) <= 3
  {
    var s5 := p.exchange + (OptSep(p.sep2) + p.line);
    var s3 := OptChar(p.close, ')') + (OptSep(p.sep1) + s5);
    DigitCountAll(p.line);
    DigitGroupCount(p.exchange, p.sep2, p.line);
    if p.sep1.Some? { DigitIsNoPunctuationConverse(p.sep1.value); }
    DigitCountPunct(OptSep(p.sep1), s5);
    DigitCountPunct(OptChar(p.close, ')'), OptSep(p.sep1) + s5);
    DigitCountDigits(p.area, s3);
  }

  /** The digits and the other characters of what a shape spells out. */
  lemma RenderDigitCount(p: PhoneShape)
    requires IsPhoneShape(p)
    ensures 10 <= DigitCount(Render(p)) <= 12
    ensures |Render(p)| - DigitCount(Render(p)) <= 5
  {
    var s2 := AreaOnwards(p);
    AreaOnwardsDigitCount(p);
    assert Render(p) == OptChar(p.plus, '+') + (OptChar(p.open, '(') + s2);
    DigitCountPunct(OptChar(p.open, '('), s2);
    DigitCountPunct(OptChar(p.plus, '+'), OptChar(p.open, '(') + s2);
  }

  /** The last element of a concatenation with a non-empty right part. */
  lemma LastOfConcat(a: string, b: string)
    requires b != []
    ensures (a + b)[|a + b| - 1] == b[|b| - 1]
  {
  }

  lemma RenderLast(p: PhoneShape)
    requires IsPhoneShape(p)
    ensures Render(p) != [] && IsDigit(Render(p)[|Render(p)| - 1])
  {
    AllDigitsAt(p.line, |p.line| - 1);
    LastOfRender(p);
  }

  /** What a shape spells out ends with the last character of its line part. */
  lemma LastOfRender(p: PhoneShape)
    requires p.line != []
    ensures Render(p) != [] && Render(p)[|Render(p)| - 1] == p.line[|p.line| - 1]
  {
    var s6 := OptSep(p.sep2) + p.line;
    var s5 := p.exchange + s6;
    var s4 := OptSep(p.sep1) + s5;
    var s3 := OptChar(p.close, ')') + s4;
    var s2 := p.area + s3;
    var s1 := OptChar(p.open, '(') + s2;
    LastOfConcat(OptSep(p.sep2), p.line);
    LastOfConcat(p.exchange, s6);
    LastOfConcat(OptSep(p.sep1), s5);
    LastOfConcat(OptChar(p.close, ')'), s4);
    LastOfConcat(p.area, s3);
    LastOfConcat(OptChar(p.open, '('), s2);
    LastOfConcat(OptChar(p.plus, '+'), s1);
  }

  lemma RenderFirst(p: PhoneShape)
    requires IsPhoneShape(p)
    ensures Render(p) != [] && (IsDigit(Render(p)[0]) || Render(p)[0] == '+' || Render(p)[0] == '(')
  {
    var s2 := AreaOnwards(p);
    assert s2[0] == p.area[0];
    assert IsDigit(p.area[0]);
    var s := Render(p);
    assert s == OptChar(p.plus, '+') + (OptChar(p.open, '(') + s2);
    if p.plus {
      assert s[0] == '+';
    } else if p.open {
      assert s[0] == '(';
    } else {
      assert s[0] == s2[0];
    }
  }

  lemma {:induction false} AllDigitsAt(s: string, k: nat)
    requires AllDigits(s) && k < |s|
    ensures IsDigit(s[k])
  {
    if k > 0 {
      AllDigitsAt(s[1..], k - 1);
    }
  }

  /**
   * An accepted phone number holds 10 to 12 digits and at most five other characters: an
   * optional leading `+`, optional parentheses and at most two single separators.
   */
  lemma PhoneDigitCount(s: string)
    requires IsValidPhone(s)
    ensures 10 <= DigitCount(s) <= 12
    ensures |s| - DigitCount(s) <= 5
    ensures IsDigit(s[|s| - 1])
    ensures IsDigit(s[0]) || s[0] == '+' || s[0] == '('
  {
    var p := ParsePhone(s).value;
    PhoneCounts(p, s);
    PhoneLast(p, s);
    PhoneFirst(p, s);
  }

  lemma PhoneCounts(p: PhoneShape, s: string)
    requires IsPhoneShape(p) && Render(p) == s
    ensures 10 <= DigitCount(s) <= 12 && |s| - DigitCount(s) <= 5
  {
    RenderDigitCount(p);
  }

  lemma PhoneLast(p: PhoneShape, s: string)
    requires IsPhoneShape(p) && Render(p) == s
    ensures s != [] && IsDigit(s[|s| - 1])
  {
    RenderLast(p);
  }

  lemma PhoneFirst(p: PhoneShape, s: string)
    requires IsPhoneShape(p) && Render(p) == s
    ensures s != [] && (IsDigit(s[0]) || s[0] == '+' || s[0] == '(')
  {
    RenderFirst(p);
  }
}
