/**
 * Character classes of ECMAScript regular expressions (without the `u` flag) and
 * a few string helpers shared by the hand-written matchers of the model.
 */
module JsText {
  import opened Wrappers

  /** `\s`: the WhiteSpace and LineTerminator code points of ECMAScript. */
  predicate IsWhitespace(c: char) {
    var n := c as int;
    n == 0x09 || n == 0x0A || n == 0x0B || n == 0x0C || n == 0x0D || n == 0x20
    || n == 0xA0 || n == 0x1680 || (0x2000 <= n <= 0x200A) || n == 0x2028 || n == 0x2029
    || n == 0x202F || n == 0x205F || n == 0x3000 || n == 0xFEFF
  }

  /** The characters that `.` does not match unless the `s` flag is given. */
  predicate IsLineTerminator(c: char) {
    var n := c as int;
    n == 0x0A || n == 0x0D || n == 0x2028 || n == 0x2029
  }

  /** `\w`: `[A-Za-z0-9_]`. */
  predicate IsWordChar(c: char) {
    ('a' <= c <= 'z') || ('A' <= c <= 'Z') || ('0' <= c <= '9') || c == '_'
  }

  /** `\d`: `[0-9]`. */
  predicate IsDigit(c: char) {
    '0' <= c <= '9'
  }

  /** Case folding of the `i` flag for the ASCII letters the model's patterns use. */
  function ToLowerAscii(c: char): (r: char)
    ensures IsWordChar(c) <==> IsWordChar(r)
    ensures !('A' <= r <= 'Z')
  {
    if 'A' <= c <= 'Z' then (c as int + 32) as char else c
  }

  predicate StartsWith(s: string, prefix: string) {
    |prefix| <= |s| && s[..|prefix|] == prefix
  }

  /** `s` ends with the lower-case text `suffix`, ignoring ASCII case, as `/suffix$/i` tests. */
  predicate EndsWithIgnoringCase(s: string, suffix: string) {
    |suffix| <= |s| && forall i :: 0 <= i < |suffix| ==> ToLowerAscii(s[|s| - |suffix| + i]) == suffix[i]
  }

  /** The end of the longest run of characters of a class starting at `from` (a greedy `[…]*`). */
  function RunEnd(t: string, from: nat, inClass: char -> bool): (r: nat)
    requires from <= |t|
    decreases |t| - from
    ensures from <= r <= |t|
    ensures forall j :: from <= j < r ==> inClass(t[j])
    ensures r == |t| || !inClass(t[r])
  {
    if from == |t| || !inClass(t[from]) then from else RunEnd(t, from + 1, inClass)
  }

  /** A run of the class from `from` that stops at a character outside it is the longest one. */
  lemma RunEndIs(t: string, from: nat, e: nat, inClass: char -> bool)
    requires from <= e <= |t| && forall j :: from <= j < e ==> inClass(t[j])
    requires e == |t| || !inClass(t[e])
    ensures RunEnd(t, from, inClass) == e
  {
  }

  /** The first index at or after `from` that holds `c`. */
  function FindChar(t: string, from: nat, c: char): (r: Option<nat>)
    requires from <= |t|
    decreases |t| - from
    ensures r.Some? ==> from <= r.value < |t| && t[r.value] == c
    ensures forall j :: from <= j < |t| && (r.None? || j < r.value) ==> t[j] != c
  {
    if from == |t| then None else if t[from] == c then Some(from) else FindChar(t, from + 1, c)
  }

  /** The first `c` at or after `from` is at `k` when `t[k]` is `c` and nothing before it is. */
  lemma FindCharIs(t: string, from: nat, c: char, k: nat)
    requires from <= k < |t| && t[k] == c && forall j :: from <= j < k ==> t[j] != c
    ensures FindChar(t, from, c) == Some(k)
  {
  }

  /** The text `pat` occurs at position `k` of `t`. */
  predicate OccursAt(t: string, k: nat, pat: string) {
    k + |pat| <= |t| && t[k..k + |pat|] == pat
  }

  /** `pat` occurs at `k` when its characters are there one by one. */
  lemma OccursAtByChars(t: string, k: nat, pat: string)
    requires k + |pat| <= |t| && forall j :: 0 <= j < |pat| ==> t[k + j] == pat[j]
    ensures OccursAt(t, k, pat)
  {
    assert t[k..k + |pat|] == pat;
  }
  /** The first position at or after `from` where `pat` occurs. */
  function FindText(t: string, from: nat, pat: string): (r: Option<nat>)
    requires from <= |t|
    decreases |t| - from
    ensures r.Some? ==> from <= r.value && OccursAt(t, r.value, pat)
    ensures forall j :: from <= j <= |t| && (r.None? || j < r.value) ==> !OccursAt(t, j, pat)
  {
    if OccursAt(t, from, pat) then Some(from)
    else if from == |t| then None
    else FindText(t, from + 1, pat)
  }

  /** The first `pat` at or after `from` is at `k` when it occurs there and nowhere before. */
  lemma FindTextIs(t: string, from: nat, pat: string, k: nat)
    requires from <= k && OccursAt(t, k, pat) && forall j :: from <= j < k ==> !OccursAt(t, j, pat)
    ensures FindText(t, from, pat) == Some(k)
  {
  }
}
