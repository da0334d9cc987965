/** The string primitives the scraper relies on, with Python's meaning:
    `str.strip()`, `str.find`, the `in` operator on strings, `str.join`,
    and the two small regular-expression tests it applies to element text. */
module Text {

  datatype Option<T> = None | Some(value: T)

  /** Python's `str.isspace` for one code point. */
  predicate IsSpace(c: char) {
    || c == ' '
    || ('\U{9}' <= c <= '\U{D}')
    || ('\U{1C}' <= c <= '\U{1F}')
    || c == '\U{85}' || c == '\U{A0}' || c == '\U{1680}'
    || ('\U{2000}' <= c <= '\U{200A}')
    || c == '\U{2028}' || c == '\U{2029}' || c == '\U{202F}' || c == '\U{205F}' || c == '\U{3000}'
  }

  /** Neither end of `s` is whitespace: what `strip()` leaves. */
  predicate Trimmed(s: string) {
    s == [] || (!IsSpace(s[0]) && !IsSpace(s[|s| - 1]))
  }

  /** Every character of `s` from index `lo` up to `hi` is whitespace. */
  predicate SpaceBetween(s: string, lo: int, hi: int) {
    forall i :: lo <= i < hi && 0 <= i < |s| ==> IsSpace(s[i])
  }

  /** The first index at or after `i` that holds no whitespace, or `|s|`. */
  function SkipSpace(s: string, i: nat): (k: nat)
    requires i <= |s|
    ensures i <= k <= |s|
    ensures SpaceBetween(s, i, k)
    ensures k < |s| ==> !IsSpace(s[k])
    decreases |s| - i
  {
    if i < |s| && IsSpace(s[i]) then SkipSpace(s, i + 1) else i
  }

  /** Going left from `j` but not below `lo`, where the whitespace ending at `j` starts. */
  function SkipSpaceBack(s: string, lo: nat, j: nat): (k: nat)
    requires lo <= j <= |s|
    ensures lo <= k <= j
    ensures SpaceBetween(s, k, j)
    ensures lo < k ==> !IsSpace(s[k - 1])
    decreases j
  {
    if lo < j && IsSpace(s[j - 1]) then SkipSpaceBack(s, lo, j - 1) else j
  }

  /** `s.strip()`: the slice of `s` between its leading and its trailing
      whitespace; whatever is dropped is whitespace. */
  function Strip(s: string): (r: string)
    ensures Trimmed(r)
    ensures var lead := SkipSpace(s, 0);
      && lead + |r| <= |s|
      && r == s[lead..lead + |r|]
      && SpaceBetween(s, 0, lead)
      && SpaceBetween(s, lead + |r|, |s|)
    ensures Trimmed(s) ==> r == s
  {
    var lead := SkipSpace(s, 0);
    var trail := SkipSpaceBack(s, lead, |s|);
    assert lead < trail ==> !IsSpace(s[trail - 1]);
    s[lead..trail]
  }

  /** `pat` occurs in `s` starting at index `i`. */
  predicate OccursAt(s: string, pat: string, i: nat) {
    i + |pat| <= |s| && s[i..i + |pat|] == pat
  }

  function FindFrom(s: string, pat: string, i: nat): (r: Option<nat>)
    requires i <= |s|
    ensures r.Some? ==> i <= r.value && OccursAt(s, pat, r.value)
    ensures r.Some? ==> forall j: nat :: i <= j < r.value ==> !OccursAt(s, pat, j)
    ensures r.None? ==> forall j: nat :: i <= j ==> !OccursAt(s, pat, j)
    decreases |s| - i
  {
    if OccursAt(s, pat, i) then Some(i)
    else if i == |s| then None
    else FindFrom(s, pat, i + 1)
  }

  /** `s.find(pat)`: the lowest index where `pat` occurs, `None` standing for -1. */
  function Find(s: string, pat: string): (r: Option<nat>)
    ensures r.Some? ==> OccursAt(s, pat, r.value)
    ensures r.Some? ==> forall j: nat :: j < r.value ==> !OccursAt(s, pat, j)
    ensures r.None? <==> forall j: nat :: !OccursAt(s, pat, j)
  {
    FindFrom(s, pat, 0)
  }

  /** `pat in s`. */
  predicate Contains(s: string, pat: string)
    ensures Contains(s, pat) <==> exists j: nat :: OccursAt(s, pat, j)
  {
    Find(s, pat).Some?
  }

  /** Two strings that agree on their first `n` characters agree on every
      occurrence that ends within them. */
  lemma OccursAtAgree(a: string, b: string, pat: string, j: nat, n: nat)
    requires n <= |a| && n <= |b| && a[..n] == b[..n] && j + |pat| <= n
    ensures OccursAt(a, pat, j) <==> OccursAt(b, pat, j)
  {
    assert a[j..j + |pat|] == a[..n][j..j + |pat|];
    assert b[j..j + |pat|] == b[..n][j..j + |pat|];
  }

  /** An occurrence inside `t` is still one, moved right by `|a|`, inside `a + t + b`. */
  lemma OccursAtShift(a: string, t: string, b: string, pat: string, k: nat)
    requires OccursAt(t, pat, k)
    ensures OccursAt(a + t + b, pat, |a| + k)
  {
    assert (a + t + b)[|a| + k..|a| + k + |pat|] == t[k..k + |pat|];
  }

  /** `re.sub(pat + '.*', '', s, flags=re.DOTALL)` for a literal `pat`: everything
      from the first occurrence of `pat` on is removed. */
  function TruncateAt(s: string, pat: string): (r: string)
    ensures |r| <= |s| && r == s[..|r|]
    ensures !Contains(s, pat) ==> r == s
    ensures Contains(s, pat) ==> Find(s, pat) == Some(|r|)
    ensures |pat| > 0 ==> !Contains(r, pat)
  {
    match Find(s, pat)
    case None => s
    case Some(i) =>
      if |pat| > 0 then NotBeforeFirst(s, pat, i); s[..i] else s[..i]
  }

  /** A non-empty pattern does not occur in the text before its first occurrence. */
  lemma NotBeforeFirst(s: string, pat: string, i: nat)
    requires |pat| > 0 && Find(s, pat) == Some(i)
    ensures !Contains(s[..i], pat)
  {
    forall j: nat | OccursAt(s[..i], pat, j) ensures false {
      OccursAtAgree(s[..i], s, pat, j, i);
    }
  }

  /** `sep.join(parts)`. */
  function Join(sep: string, parts: seq<string>): string {
    if |parts| == 0 then ""
    else if |parts| == 1 then parts[0]
    else parts[0] + sep + Join(sep, parts[1..])
  }

  /** Where `parts[i]` starts inside `Join(sep, parts)`. */
  function Offset(sep: string, parts: seq<string>, i: nat): nat
    requires i <= |parts|
  {
    if i == 0 then 0 else |parts[0]| + |sep| + Offset(sep, parts[1..], i - 1)
  }

  /** The joined text is the parts in list order with `sep` between neighbours
      and nothing after the last part. */
  lemma {:induction false} JoinPartAt(sep: string, parts: seq<string>, i: nat)
    requires i < |parts|
    ensures OccursAt(Join(sep, parts), parts[i], Offset(sep, parts, i))
    ensures i + 1 < |parts| ==> OccursAt(Join(sep, parts), sep, Offset(sep, parts, i) + |parts[i]|)
    ensures i + 1 == |parts| ==> |Join(sep, parts)| == Offset(sep, parts, i) + |parts[i]|
  {
    if |parts| == 1 {
    } else if i == 0 {
      assert Join(sep, parts) == parts[0] + sep + Join(sep, parts[1..]);
      assert OccursAt(parts[0], parts[0], 0);
      OccursAtShift([], parts[0], sep + Join(sep, parts[1..]), parts[0], 0);
      assert OccursAt(sep, sep, 0);
      OccursAtShift(parts[0], sep, Join(sep, parts[1..]), sep, 0);
    } else {
      var rest := Join(sep, parts[1..]);
      var head := parts[0] + sep;
      assert Join(sep, parts) == head + rest + [];
      JoinPartAt(sep, parts[1..], i - 1);
      OccursAtShift(head, rest, [], parts[i], Offset(sep, parts[1..], i - 1));
      if i + 1 < |parts| {
        OccursAtShift(head, rest, [], sep, Offset(sep, parts[1..], i - 1) + |parts[i]|);
      }
    }
  }

  /** ASCII lower-casing: a capital letter moves down to its small letter, any
      other character stays. */
  function LowerAscii(c: char): (l: char)
    ensures 'A' <= c <= 'Z' ==> l as int == c as int + 32 && 'a' <= l <= 'z'
    ensures !('A' <= c <= 'Z') ==> l == c
  {
    if 'A' <= c <= 'Z' then (c as int - 'A' as int + 'a' as int) as char else c
  }

  function LowerAsciiString(s: string): (r: string)
    ensures |r| == |s|
    ensures forall i :: 0 <= i < |s| ==> r[i] == LowerAscii(s[i])
  {
    seq(|s|, i requires 0 <= i < |s| => LowerAscii(s[i]))
  }

  /** `re.search(pat, s, re.IGNORECASE)` for a literal `pat`, with ASCII case folding. */
  predicate ContainsIgnoreCase(s: string, pat: string) {
    Contains(LowerAsciiString(s), LowerAsciiString(pat))
  }

  predicate IsAsciiDigit(c: char) {
    '0' <= c <= '9'
  }

  /** Six digits in a row start at `i` (the match of `\d{6}`). */
  predicate DigitRunAt(s: string, i: nat) {
    && i + 6 <= |s|
    && IsAsciiDigit(s[i]) && IsAsciiDigit(s[i + 1]) && IsAsciiDigit(s[i + 2])
    && IsAsciiDigit(s[i + 3]) && IsAsciiDigit(s[i + 4]) && IsAsciiDigit(s[i + 5])
  }

  /** `re.search(r'\d{6}', s)` succeeds. */
  predicate HasSixDigits(s: string) {
    exists i: nat | i < |s| :: DigitRunAt(s, i)
  }
}
