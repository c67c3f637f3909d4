/** The JavaScript string operations the extraction rules rely on:
    `trim`, `split` with a string separator, `replace` of a single
    character, and the key normalisation `toLowerCase().replace(/ /g, '_')`. */
module Text {
  import opened Wrappers

  /** JavaScript truthiness of an optional string: present and non-empty. */
  predicate HasText(o: Option<string>) {
    o.Some? && o.value != ""
  }

  // ---------------------------------------------------------------- trim

  /** The characters `String.prototype.trim` strips: the WhiteSpace and
      LineTerminator code points of ECMAScript (TAB, LF, VT, FF, CR, the Zs
      space separators, LS, PS and the byte-order mark). */
  predicate IsJsSpace(c: char) {
    || ('\t' <= c <= '\r')
    || c == ' '
    || c == '\U{A0}'
    || c == '\U{1680}'
    || ('\U{2000}' <= c <= '\U{200A}')
    || c == '\U{2028}'
    || c == '\U{2029}'
    || c == '\U{202F}'
    || c == '\U{205F}'
    || c == '\U{3000}'
    || c == '\U{FEFF}'
  }

  /** Every character of `s` is trimmable. */
  predicate AllSpace(s: string) {
    forall i :: 0 <= i < |s| ==> IsJsSpace(s[i])
  }

  /** The first index at or after `i` that holds no space, or `|s|`: where
      `trimStart` stops. */
  function SkipSpace(s: string, i: nat): (j: nat)
    requires i <= |s|
    decreases |s| - i
    ensures i <= j <= |s|
    ensures forall k :: i <= k < j ==> IsJsSpace(s[k])
    ensures j < |s| ==> !IsJsSpace(s[j])
  {
    if i < |s| && IsJsSpace(s[i]) then SkipSpace(s, i + 1) else i
  }

  /** The end of `s[lo..j]` once its trailing spaces are cut off: where
      `trimEnd` stops. */
  function SkipSpaceBack(s: string, lo: nat, j: nat): (e: nat)
    requires lo <= j <= |s|
    decreases j - lo
    ensures lo <= e <= j
    ensures forall k :: e <= k < j ==> IsJsSpace(s[k])
    ensures lo < e ==> !IsJsSpace(s[e - 1])
  {
    if lo < j && IsJsSpace(s[j - 1]) then SkipSpaceBack(s, lo, j - 1) else j
  }

  /** A string with no space at either end. */
  predicate Trimmed(s: string) {
    s == [] || (!IsJsSpace(s[0]) && !IsJsSpace(s[|s| - 1]))
  }

  /** `r` is `s` with a leading run of `a` space characters and a trailing
      run of space characters cut off, and `r` neither starts nor ends with
      space. */
  predicate IsTrimmedSlice(s: string, r: string, a: nat) {
    && a + |r| <= |s|
    && r == s[a..a + |r|]
    && (forall k :: 0 <= k < a ==> IsJsSpace(s[k]))
    && (forall k :: a + |r| <= k < |s| ==> IsJsSpace(s[k]))
    && Trimmed(r)
  }

  /** How many characters `trim` cuts from the front of `s`. */
  function LeadingSpace(s: string): nat {
    SkipSpace(s, 0)
  }

  /** `s.trim()`: the text between the leading and the trailing run of
      space characters. */
  function Trim(s: string): (r: string)
    ensures IsTrimmedSlice(s, r, LeadingSpace(s))
  {
    var a := SkipSpace(s, 0);
    var e := SkipSpaceBack(s, a, |s|);
    assert a + (e - a) == e;
    s[a..e]
  }

  /** Trimming a string that has no space at either end leaves it alone. */
  lemma TrimOfTrimmed(s: string)
    requires Trimmed(s)
    ensures Trim(s) == s
  {
    assert SkipSpace(s, 0) == 0;
    assert SkipSpaceBack(s, 0, |s|) == |s|;
  }

  /** Trimming a single leading space off an otherwise trimmed string. */
  lemma TrimDropsLeadingSpace(c: char, t: string)
    requires IsJsSpace(c)
    requires Trimmed(t)
    ensures Trim([c] + t) == t
  {
    var s := [c] + t;
    assert s[1..] == t;
    assert SkipSpace(s, 0) == 1;
    assert SkipSpaceBack(s, 1, |s|) == |s|;
  }

  /** `trim` is idempotent. */
  lemma TrimIdempotent(s: string)
    ensures Trim(Trim(s)) == Trim(s)
  {
    TrimOfTrimmed(Trim(s));
  }

  /** The trimmed text is empty exactly when the text is all space, which is
      when the `||` fallbacks of the search badges fire. */
  lemma TrimEmptyIffAllSpace(s: string)
    ensures Trim(s) == "" <==> AllSpace(s)
  {
    var r := Trim(s);
    var a := LeadingSpace(s);
    if r != "" {
      assert s[a] == r[0];
      assert !IsJsSpace(s[a]);
    }
  }

  // --------------------------------------------------------------- search

  /** `pat` occurs in `s` starting at index `i`. */
  predicate OccursAt(s: string, pat: string, i: nat) {
    i + |pat| <= |s| && s[i..i + |pat|] == pat
  }

  /** The first occurrence of `pat` in `s` at or after `from`. */
  function IndexOfFrom(s: string, pat: string, from: nat): (r: Option<nat>)
    decreases |s| - from
    ensures r.Some? ==> from <= r.value && OccursAt(s, pat, r.value)
  {
    if from + |pat| > |s| then None
    else if OccursAt(s, pat, from) then Some(from)
    else IndexOfFrom(s, pat, from + 1)
  }

  /** Nothing occurs between `from` and the reported occurrence, nor
      anywhere from `from` on when none is reported. */
  lemma {:induction false} IndexOfFromIsFirst(s: string, pat: string, from: nat)
    decreases |s| - from
    ensures IndexOfFrom(s, pat, from).Some? ==>
              forall j: nat :: from <= j < IndexOfFrom(s, pat, from).value ==> !OccursAt(s, pat, j)
    ensures IndexOfFrom(s, pat, from).None? ==> forall j: nat :: from <= j ==> !OccursAt(s, pat, j)
  {
    if from + |pat| <= |s| && !OccursAt(s, pat, from) {
      IndexOfFromIsFirst(s, pat, from + 1);
    }
  }

  /** The first occurrence of `pat` in `s`, the search ECMAScript's `split`
      is defined by (`s.indexOf(pat)`, with `None` for -1). */
  function IndexOf(s: string, pat: string): (r: Option<nat>)
    ensures r.Some? ==> OccursAt(s, pat, r.value)
  {
    IndexOfFrom(s, pat, 0)
  }

  /** The search reports the first occurrence, and reports none only when
      there is none. */
  lemma IndexOfFirst(s: string, pat: string)
    ensures IndexOf(s, pat).Some? ==> forall j: nat :: j < IndexOf(s, pat).value ==> !OccursAt(s, pat, j)
    ensures IndexOf(s, pat).None? ==> forall j: nat :: !OccursAt(s, pat, j)
  {
    IndexOfFromIsFirst(s, pat, 0);
  }

  /** The first occurrence is unique: any index where `pat` occurs with no
      occurrence before it is the one `IndexOf` reports. */
  lemma IndexOfIsFirst(s: string, pat: string, i: nat)
    requires OccursAt(s, pat, i)
    requires forall j: nat :: j < i ==> !OccursAt(s, pat, j)
    ensures IndexOf(s, pat) == Some(i)
  {
    IndexOfFirst(s, pat);
  }

  /** Occurrences inside a suffix are occurrences in the whole string, shifted. */
  lemma OccursInSuffix(s: string, pat: string, k: nat, j: nat)
    requires k <= |s|
    ensures OccursAt(s[k..], pat, j) <==> OccursAt(s, pat, k + j)
  {
    if j + |pat| <= |s| - k {
      assert s[k..][j..j + |pat|] == s[k + j..k + j + |pat|];
    }
  }

  /** Occurrences inside a prefix are occurrences in the whole string. */
  lemma OccursInPrefix(s: string, pat: string, k: nat, j: nat)
    requires k <= |s|
    requires OccursAt(s[..k], pat, j)
    ensures OccursAt(s, pat, j)
  {
    assert s[..k][j..j + |pat|] == s[j..j + |pat|];
  }

  /** The prefix before the first occurrence contains no occurrence. */
  lemma NoOccurrenceBeforeFirst(s: string, pat: string, i: nat)
    requires |pat| > 0
    requires IndexOf(s, pat) == Some(i)
    ensures IndexOf(s[..i], pat).None?
  {
    IndexOfFirst(s, pat);
    match IndexOf(s[..i], pat)
    case None =>
    case Some(j) =>
      OccursInPrefix(s, pat, i, j);
  }

  // ---------------------------------------------------------------- split

  /** `pieces` joined back together with `sep` between neighbours. */
  function Join(pieces: seq<string>, sep: string): string
    requires |pieces| > 0
  {
    if |pieces| == 1 then pieces[0] else pieces[0] + sep + Join(pieces[1..], sep)
  }

  /** `s.split(sep)` for a non-empty string separator: the text between
      successive non-overlapping occurrences of `sep`, scanning left to
      right; there is always at least one piece. */
  function SplitOn(s: string, sep: string): (r: seq<string>)
    requires |sep| > 0
    decreases |s|
    ensures |r| > 0
  {
    match IndexOf(s, sep)
    case None => [s]
    case Some(i) => [s[..i]] + SplitOn(s[i + |sep|..], sep)
  }

  /** Joining the pieces with `sep` gives back the split string. */
  lemma {:induction false} SplitJoin(s: string, sep: string)
    requires |sep| > 0
    decreases |s|
    ensures Join(SplitOn(s, sep), sep) == s
  {
    match IndexOf(s, sep)
    case None =>
    case Some(i) =>
      var rest := s[i + |sep|..];
      SplitJoin(rest, sep);
      var r := SplitOn(s, sep);
      assert r == [s[..i]] + SplitOn(rest, sep);
      assert r[1..] == SplitOn(rest, sep);
      assert s == s[..i] + sep + rest;
  }

  /** No piece contains the separator. */
  lemma {:induction false} SplitPiecesFree(s: string, sep: string)
    requires |sep| > 0
    decreases |s|
    ensures forall k :: 0 <= k < |SplitOn(s, sep)| ==> IndexOf(SplitOn(s, sep)[k], sep).None?
  {
    match IndexOf(s, sep)
    case None =>
    case Some(i) =>
      var rest := s[i + |sep|..];
      SplitPiecesFree(rest, sep);
      NoOccurrenceBeforeFirst(s, sep, i);
      var r := SplitOn(s, sep);
      assert r == [s[..i]] + SplitOn(rest, sep);
      assert forall k :: 1 <= k < |r| ==> r[k] == SplitOn(rest, sep)[k - 1];
  }

  /** With no occurrence of `sep`, splitting yields the whole string. */
  lemma SplitWithoutSeparator(s: string, sep: string)
    requires |sep| > 0
    requires forall j: nat :: !OccursAt(s, sep, j)
    ensures SplitOn(s, sep) == [s]
  {
  }

  /** Splitting at the first occurrence: the text before it, then the
      pieces of the text after it. */
  lemma SplitAtFirst(s: string, sep: string, i: nat)
    requires |sep| > 0 && IndexOf(s, sep) == Some(i)
    ensures SplitOn(s, sep) == [s[..i]] + SplitOn(s[i + |sep|..], sep)
  {
    assert OccursAt(s, sep, i);
  }

  /** The suffix from `n` has its first occurrence at `j - n` when `s` has
      one at `j` and none from `n` up to `j`. */
  lemma FirstInSuffix(s: string, sep: string, n: nat, j: nat)
    requires |sep| > 0 && n <= j && OccursAt(s, sep, j)
    requires forall k: nat :: n <= k < j ==> !OccursAt(s, sep, k)
    ensures IndexOf(s[n..], sep) == Some(j - n)
  {
    var rest := s[n..];
    OccursInSuffix(s, sep, n, j - n);
    forall k: nat | k < j - n ensures !OccursAt(rest, sep, k) {
      OccursInSuffix(s, sep, n, k);
    }
    IndexOfIsFirst(rest, sep, j - n);
  }

  /** The suffix from `n` cut at `j - n` is the slice from `n` to `j`. */
  lemma PrefixOfSuffix(s: string, n: nat, j: nat)
    requires n <= j <= |s|
    ensures s[n..][..j - n] == s[n..j]
  {
  }

  /** The first two pieces when `sep` occurs at `i` and again at `j`, with
      no other occurrence before `j`: the text before `i`, then the text
      strictly between the two occurrences. */
  lemma SplitBetweenTwo(s: string, sep: string, i: nat, j: nat)
    requires |sep| > 0
    requires OccursAt(s, sep, i) && forall k: nat :: k < i ==> !OccursAt(s, sep, k)
    requires i + |sep| <= j && OccursAt(s, sep, j)
    requires forall k: nat :: i + |sep| <= k < j ==> !OccursAt(s, sep, k)
    ensures |SplitOn(s, sep)| >= 3
    ensures SplitOn(s, sep)[0] == s[..i]
    ensures SplitOn(s, sep)[1] == s[i + |sep|..j]
  {
    IndexOfIsFirst(s, sep, i);
    var n := i + |sep|;
    var rest := s[n..];
    SplitAtFirst(s, sep, i);
    FirstInSuffix(s, sep, n, j);
    SplitAtFirst(rest, sep, j - n);
    PrefixOfSuffix(s, n, j);
    var tail := SplitOn(rest, sep);
    var last := SplitOn(rest[j - n + |sep|..], sep);
    assert tail == [s[n..j]] + last;
    assert SplitOn(s, sep) == [s[..i]] + ([s[n..j]] + last);
  }

  /** The first two pieces when `sep` occurs at `i` and never again after it:
      the text before `i`, then everything after the occurrence. */
  lemma SplitAfterLast(s: string, sep: string, i: nat)
    requires |sep| > 0
    requires OccursAt(s, sep, i) && forall k: nat :: k < i ==> !OccursAt(s, sep, k)
    requires forall k: nat :: i + |sep| <= k ==> !OccursAt(s, sep, k)
    ensures |SplitOn(s, sep)| == 2
    ensures SplitOn(s, sep)[0] == s[..i]
    ensures SplitOn(s, sep)[1] == s[i + |sep|..]
  {
    IndexOfIsFirst(s, sep, i);
    var n := i + |sep|;
    var rest := s[n..];
    forall k: nat ensures !OccursAt(rest, sep, k) {
      OccursInSuffix(s, sep, n, k);
    }
    SplitWithoutSeparator(rest, sep);
    SplitAtFirst(s, sep, i);
  }

  // -------------------------------------------------------------- replace

  /** The index of the first `c` in `s`. */
  function CharIndex(s: string, c: char): (i: nat)
    requires c in s
    ensures i < |s| && s[i] == c && c !in s[..i]
  {
    if s[0] == c then 0
    else
      var i := CharIndex(s[1..], c);
      assert s[..i + 1] == [s[0]] + s[1..][..i];
      i + 1
  }

  /** `s.replace(c, '')` with a one-character string pattern: removes the
      first occurrence of `c` only, and leaves `s` alone when `c` is absent.
      Putting `c` back in front of the first position that held no `c`
      restores `s`. */
  function RemoveFirst(s: string, c: char): (r: string)
    ensures c !in s ==> r == s
    ensures c in s ==> |r| == |s| - 1
    ensures c in s ==> var i := CharIndex(s, c);
                       c !in r[..i] && r[..i] + [c] + r[i..] == s
  {
    if c in s then
      var i := CharIndex(s, c);
      var r := s[..i] + s[i + 1..];
      assert r[..i] == s[..i] && r[i..] == s[i + 1..];
      assert s == s[..i] + [c] + s[i + 1..];
      r
    else s
  }

  /** The first `c` of `p + [c] + q`, with no `c` in `p`, sits right after `p`. */
  lemma CharIndexAfter(p: string, c: char, q: string)
    requires c !in p
    ensures c in p + [c] + q && CharIndex(p + [c] + q, c) == |p|
  {
    var s := p + [c] + q;
    assert s[|p|] == c;
    var i := CharIndex(s, c);
    assert forall k :: 0 <= k < |p| ==> s[k] == p[k];
  }

  /** Removing the first `c` from `p + [c] + q`, where `p` has no `c`, gives
      `p + q`: the occurrence removed is exactly the first one. */
  lemma RemoveFirstAt(p: string, c: char, q: string)
    requires c !in p
    ensures RemoveFirst(p + [c] + q, c) == p + q
  {
    var s := p + [c] + q;
    CharIndexAfter(p, c, q);
    assert s[..|p|] == p && s[|p| + 1..] == q;
  }

  /** A slug-style segment `x/` loses exactly its trailing slash when `x`
      has no slash of its own. */
  lemma RemoveFirstTrailing(s: string, c: char)
    requires c !in s
    ensures RemoveFirst(s + [c], c) == s
  {
    RemoveFirstAt(s, c, []);
    assert s + [c] + [] == s + [c];
    assert s + [] == s;
  }

  // ------------------------------------------------------- key normalising

  /** ASCII `toLowerCase` of one character. */
  function LowerAscii(c: char): char {
    if 'A' <= c <= 'Z' then (c as int + 32) as char else c
  }

  /** One character of `label.toLowerCase().replace(/ /g, '_')`. */
  function KeyChar(c: char): (k: char)
    ensures k != ' ' && !('A' <= k <= 'Z')
    ensures c == ' ' ==> k == '_'
    ensures 'A' <= c <= 'Z' ==> k as int == c as int + 32
    ensures c != ' ' && !('A' <= c <= 'Z') ==> k == c
  {
    if c == ' ' then '_' else LowerAscii(c)
  }

  /** A normalised key: no U+0020 space and no ASCII capital. */
  predicate IsKey(key: string) {
    forall i :: 0 <= i < |key| ==> key[i] != ' ' && !('A' <= key[i] <= 'Z')
  }

  /** The info-block key of a label: lower-cased, every U+0020 space turned
      into `_`. The key has the label's length, no space and no ASCII
      capital; each capital became its lower-case letter and every other
      character of the label stays where it was. */
  function NormalizeKey(name: string): (key: string)
    ensures |key| == |name|
    ensures IsKey(key)
    ensures forall i :: 0 <= i < |name| && name[i] == ' ' ==> key[i] == '_'
    ensures forall i :: 0 <= i < |name| && name[i] != ' ' && !('A' <= name[i] <= 'Z') ==> key[i] == name[i]
    ensures forall i :: 0 <= i < |name| && 'A' <= name[i] <= 'Z' ==> key[i] as int == name[i] as int + 32
  {
    seq(|name|, i requires 0 <= i < |name| => KeyChar(name[i]))
  }

  /** A key is its own normalisation, so normalising twice changes nothing. */
  lemma NormalizeKeyIdempotent(name: string)
    ensures NormalizeKey(NormalizeKey(name)) == NormalizeKey(name)
  {
    var k := NormalizeKey(name);
    forall i | 0 <= i < |k| ensures KeyChar(k[i]) == k[i] {
      assert k[i] != ' ' && !('A' <= k[i] <= 'Z');
    }
  }
}
