/**
 * The snippet scanner of the preview engine: the global, dotAll search for
 *   (<svg\s[^>]*>.*?<\/svg>)|\bdata:image\/\w+(?:\+\w+)?;base64,[A-Za-z0-9+/]+=*
 * as `matchAll` enumerates it, and the normalisation that turns an svg snippet into
 * its cache key by deleting the whitespace right after `>` and right before `<`.
 */
module Snippets {
  import opened Wrappers
  import opened JsText
  import Encoding

  /** One match: `raw` is the matched text, found at offset `index` of the document text. */
  datatype Snippet = Snippet(index: nat, raw: string, isSvg: bool) {
    /** The offset just past the match: the decoration range is `[index, End())`. */
    function End(): nat {
      index + |raw|
    }
  }

  const SvgOpen := "<svg"
  const SvgClose := "</svg>"
  const DataPrefix := "data:image/"

  /** `[A-Za-z0-9+/]`: the base64 alphabet. */
  predicate IsBase64Char(c: char) {
    Encoding.DigitValue(c).Some?
  }

  predicate IsPad(c: char) {
    c == '='
  }

  /** The match of `t[i..]` is the exact text between `i` and `end`, and not empty. */
  predicate MatchesText(t: string, i: nat, r: Option<Snippet>) {
    r.Some? ==>
      && r.value.index == i && 0 < |r.value.raw| && r.value.End() <= |t|
      && r.value.raw == t[i..r.value.End()]
  }

  /**
   * The first alternative at position `i`: `<svg`, one whitespace character, everything up
   * to the first `>`, then lazily everything up to the first `</svg>` after it.
   */
  function SvgMatchAt(t: string, i: nat): (r: Option<Snippet>)
    ensures MatchesText(t, i, r)
    ensures r.Some? ==> r.value.isSvg
    ensures r.Some? ==>
      && |r.value.raw| >= 12 && StartsWith(r.value.raw, SvgOpen) && IsWhitespace(r.value.raw[4])
      && OccursAt(r.value.raw, |r.value.raw| - 6, SvgClose)
  {
    if i + 4 < |t| && OccursAt(t, i, SvgOpen) && IsWhitespace(t[i + 4]) then
      match FindChar(t, i + 5, '>')
      case None => None
      case Some(gt) =>
        match FindText(t, gt + 1, SvgClose)
        case None => None
        case Some(close) =>
          assert t[i..close + 6][..4] == t[i..i + 4];
          assert t[i..close + 6][close + 6 - i - 6..] == t[close..close + 6];
          Some(Snippet(i, t[i..close + 6], true))
    else
      None
  }

  /** The end of the subtype `\w+(?:\+\w+)?` that starts at `p`; `p` itself when `\w+` fails. */
  function SubtypeEnd(t: string, p: nat): (r: nat)
    requires p <= |t|
    ensures p <= r <= |t|
  {
    var e := RunEnd(t, p, IsWordChar);
    if e == p then p
    else if e < |t| && t[e] == '+' && RunEnd(t, e + 1, IsWordChar) > e + 1 then RunEnd(t, e + 1, IsWordChar)
    else e
  }

  /** The end of the greedy `[A-Za-z0-9+/]+=*` that starts at `p`. */
  function PaddedEnd(t: string, p: nat): nat
    requires p <= |t|
  {
    RunEnd(t, RunEnd(t, p, IsBase64Char), IsPad)
  }

  /**
   * The second alternative at position `i`: a word boundary, `data:image/`, a subtype
   * (`\w+`, optionally `+\w+`), `;base64,`, a non-empty base64 payload and its padding.
   */
  function DataMatchAt(t: string, i: nat): (r: Option<Snippet>)
    ensures MatchesText(t, i, r)
    ensures r.Some? ==> !r.value.isSvg && StartsWith(r.value.raw, DataPrefix)
    ensures r.Some? ==> i == 0 || !IsWordChar(t[i - 1])
  {
    if OccursAt(t, i, DataPrefix) && (i == 0 || !IsWordChar(t[i - 1])) then
      var subtype := i + |DataPrefix|;
      var s := SubtypeEnd(t, subtype);
      if s == subtype || !OccursAt(t, s, Encoding.Base64Marker) then None
      else
        var payload := s + |Encoding.Base64Marker|;
        if RunEnd(t, payload, IsBase64Char) == payload then None
        else
          var padEnd := PaddedEnd(t, payload);
          assert t[i..padEnd][..|DataPrefix|] == t[i..i + |DataPrefix|];
          Some(Snippet(i, t[i..padEnd], false))
    else
      None
  }

  /** The alternation at one position: the svg alternative is tried first. */
  function MatchAt(t: string, i: nat): (r: Option<Snippet>)
    ensures MatchesText(t, i, r)
  {
    if SvgMatchAt(t, i).Some? then SvgMatchAt(t, i) else DataMatchAt(t, i)
  }

  /**
   * An svg element at `i` as the first alternative reads it: `<svg`, a whitespace character,
   * a run without `>` up to the `>` at `gt`, and at `close` the first `</svg>` after it.
   */
  predicate SvgElementAt(t: string, i: nat, gt: nat, close: nat) {
    && i + 5 <= gt < close && close + |SvgClose| <= |t|
    && OccursAt(t, i, SvgOpen) && IsWhitespace(t[i + 4])
    && t[gt] == '>' && (forall j :: i + 5 <= j < gt ==> t[j] != '>')
    && OccursAt(t, close, SvgClose) && (forall c :: gt < c < close ==> !OccursAt(t, c, SvgClose))
  }

  /** `[^>]*>` stops at the first `>` and the lazy `.*?` at the first `</svg>` after it. */
  lemma SvgMatchFound(t: string, i: nat, gt: nat, close: nat)
    requires SvgElementAt(t, i, gt, close)
    ensures SvgMatchAt(t, i) == Some(Snippet(i, t[i..close + 6], true))
  {
    FindCharIs(t, i + 5, '>', gt);
    FindTextIs(t, gt + 1, SvgClose, close);
  }

  /** An svg match is such an element, ending with its `</svg>`. */
  lemma SvgMatchShape(t: string, i: nat)
    requires SvgMatchAt(t, i).Some?
    ensures exists gt: nat, close: nat :: close + 6 == SvgMatchAt(t, i).value.End() && SvgElementAt(t, i, gt, close)
  {
    var gt := FindChar(t, i + 5, '>').value;
    var close := FindText(t, gt + 1, SvgClose).value;
    assert SvgElementAt(t, i, gt, close);
  }

  /**
   * `<svg`, a whitespace character, any later `>` and any `</svg>` after that are enough for
   * a match, and the lazy match ends no later than that `</svg>`.
   */
  lemma SvgMatchExists(t: string, i: nat, g: nat, c: nat)
    requires i + 5 <= g < c && c + |SvgClose| <= |t|
    requires OccursAt(t, i, SvgOpen) && IsWhitespace(t[i + 4])
    requires t[g] == '>' && OccursAt(t, c, SvgClose)
    ensures SvgMatchAt(t, i).Some? && SvgMatchAt(t, i).value.End() <= c + |SvgClose|
  {
    assert t[g] == '>' && OccursAt(t, c, SvgClose);
    var gt := FindChar(t, i + 5, '>');
    assert gt.Some? && gt.value <= g;
    var close := FindText(t, gt.value + 1, SvgClose);
    assert close.Some? && close.value <= c;
  }

  /**
   * A data URL at `i` as the second alternative reads it: a word boundary, `data:image/`,
   * the subtype `\w+` up to `k`, then either nothing (`k == s`) or `+\w+` up to `s`, then
   * `;base64,` at `s` and a first payload character.
   */
  predicate DataUrlAt(t: string, i: nat, k: nat, s: nat) {
    && i + |DataPrefix| < k <= s && s + |Encoding.Base64Marker| < |t|
    && OccursAt(t, i, DataPrefix) && (i == 0 || !IsWordChar(t[i - 1]))
    && (forall j :: i + |DataPrefix| <= j < k ==> IsWordChar(t[j]))
    && (k == s || (t[k] == '+' && k + 1 < s && forall j :: k < j < s ==> IsWordChar(t[j])))
    && OccursAt(t, s, Encoding.Base64Marker) && IsBase64Char(t[s + |Encoding.Base64Marker|])
  }

  /** A word run up to `k`, optionally `+` and a word run up to `s`, then `;`: the subtype ends at `s`. */
  lemma SubtypeEndIs(t: string, p: nat, k: nat, s: nat)
    requires p < k <= s < |t| && t[s] == ';'
    requires forall j :: p <= j < k ==> IsWordChar(t[j])
    requires k == s || (t[k] == '+' && k + 1 < s && forall j :: k < j < s ==> IsWordChar(t[j]))
    ensures SubtypeEnd(t, p) == s
  {
    RunEndIs(t, p, k, IsWordChar);
    if k < s {
      RunEndIs(t, k + 1, s, IsWordChar);
    }
  }

  /** At a data URL the second alternative matches it, through all its payload and padding. */
  lemma DataMatchFound(t: string, i: nat, k: nat, s: nat)
    requires DataUrlAt(t, i, k, s)
    ensures DataMatchAt(t, i) == Some(Snippet(i, t[i..PaddedEnd(t, s + |Encoding.Base64Marker|)], false))
  {
    assert t[s] == Encoding.Base64Marker[0];
    SubtypeEndIs(t, i + |DataPrefix|, k, s);
  }

  /** A data match is such a URL, ending where its payload and padding end. */
  lemma DataMatchShape(t: string, i: nat)
    requires DataMatchAt(t, i).Some?
    ensures exists k: nat, s: nat ::
      (DataUrlAt(t, i, k, s) && DataMatchAt(t, i).value.End() == PaddedEnd(t, s + |Encoding.Base64Marker|))
  {
    var k := RunEnd(t, i + |DataPrefix|, IsWordChar);
    var s := SubtypeEnd(t, i + |DataPrefix|);
    assert t[s] == Encoding.Base64Marker[0];
    assert DataUrlAt(t, i, k, s);
  }

  /** The pattern at an svg element: the svg alternative wins. */
  lemma MatchAtSvg(t: string, i: nat, gt: nat, close: nat)
    requires SvgElementAt(t, i, gt, close)
    ensures MatchAt(t, i) == Some(Snippet(i, t[i..close + 6], true))
  {
    SvgMatchFound(t, i, gt, close);
  }

  /** The pattern at a data URL: its text starts with `d`, so only the data alternative can match. */
  lemma MatchAtData(t: string, i: nat, k: nat, s: nat)
    requires DataUrlAt(t, i, k, s)
    ensures MatchAt(t, i) == Some(Snippet(i, t[i..PaddedEnd(t, s + |Encoding.Base64Marker|)], false))
  {
    assert t[i] == DataPrefix[0] == 'd';
    assert !OccursAt(t, i, SvgOpen) by {
      assert SvgOpen[0] == '<';
    }
    DataMatchFound(t, i, k, s);
  }

  /** Nothing matches at a position that starts neither an svg element nor a data URL. */
  lemma MatchAtNone(t: string, i: nat)
    requires forall gt: nat, close: nat :: !SvgElementAt(t, i, gt, close)
    requires forall k: nat, s: nat :: !DataUrlAt(t, i, k, s)
    ensures MatchAt(t, i).None?
  {
    if SvgMatchAt(t, i).Some? {
      SvgMatchShape(t, i);
    } else if DataMatchAt(t, i).Some? {
      DataMatchShape(t, i);
    }
  }

  /** A matcher of one pattern at one position, as the regular-expression engine runs it. */
  type Matcher = at: (string, nat) -> Option<Snippet> | forall t, i :: MatchesText(t, i, at(t, i))
    witness (t: string, i: nat) => None

  /** No match starts anywhere in `[lo, hi)`. */
  predicate NoMatchIn(at: Matcher, t: string, lo: nat, hi: nat) {
    forall p :: lo <= p < hi && p < |t| ==> at(t, p).None?
  }

  /** The leftmost match that starts at or after `from`. */
  function NextMatch(at: Matcher, t: string, from: nat): (r: Option<Snippet>)
    requires from <= |t|
    decreases |t| - from
    ensures r.Some? ==> from <= r.value.index && at(t, r.value.index) == r
  {
    if from == |t| then None
    else if at(t, from).Some? then at(t, from)
    else NextMatch(at, t, from + 1)
  }

  /** The search skips only positions where nothing matches. */
  lemma {:induction false} NextMatchLeftmost(at: Matcher, t: string, from: nat)
    requires from <= |t|
    ensures NoMatchIn(at, t, from, if NextMatch(at, t, from).Some? then NextMatch(at, t, from).value.index else |t|)
    decreases |t| - from
  {
    if from < |t| && at(t, from).None? {
      NextMatchLeftmost(at, t, from + 1);
    }
  }

  /** `matchAll` from `from` on: each search resumes where the previous match ended. */
  function ScanFrom(at: Matcher, t: string, from: nat): (r: seq<Snippet>)
    requires from <= |t|
    decreases |t| - from
    ensures forall k :: 0 <= k < |r| ==> from <= r[k].index && MatchesText(t, r[k].index, Some(r[k]))
  {
    match NextMatch(at, t, from)
    case None => []
    case Some(m) =>
      assert MatchesText(t, m.index, at(t, m.index));
      [m] + ScanFrom(at, t, m.End())
  }

  /**
   * What `matchAll` promises, searching from `from`: the first element is the leftmost match
   * at or after `from`, and the rest is what the search finds from where that match ended;
   * with no element left, no match starts anywhere after `from`.
   */
  predicate IsMatchAll(at: Matcher, t: string, from: nat, ms: seq<Snippet>)
    decreases |ms|
  {
    if ms == [] then NoMatchIn(at, t, from, |t|)
    else
      && from <= ms[0].index
      && at(t, ms[0].index) == Some(ms[0])
      && NoMatchIn(at, t, from, ms[0].index)
      && IsMatchAll(at, t, ms[0].End(), ms[1..])
  }

  /** The scanner enumerates exactly the leftmost, non-overlapping matches. */
  lemma {:induction false} ScanIsMatchAll(at: Matcher, t: string, from: nat)
    requires from <= |t|
    ensures IsMatchAll(at, t, from, ScanFrom(at, t, from))
    decreases |t| - from
  {
    NextMatchLeftmost(at, t, from);
    match NextMatch(at, t, from)
    case None =>
    case Some(m) =>
      var rest := ScanFrom(at, t, m.End());
      ScanIsMatchAll(at, t, m.End());
      assert ScanFrom(at, t, from) == [m] + rest;
      assert ([m] + rest)[1..] == rest;
  }

  /** A match found from `lo` on cannot start before `hi` when no match starts in `[lo, hi)`. */
  lemma MatchNotBefore(at: Matcher, t: string, lo: nat, hi: nat, m: Snippet)
    requires NoMatchIn(at, t, lo, hi) && lo <= m.index && at(t, m.index) == Some(m)
    ensures hi <= m.index < |t|
  {
    assert MatchesText(t, m.index, at(t, m.index));
  }

  /** When the search from `from` finds nothing, no list that keeps the promise has an element. */
  lemma NoMatchNoList(at: Matcher, t: string, from: nat, ms: seq<Snippet>, ns: seq<Snippet>)
    requires IsMatchAll(at, t, from, ms) && IsMatchAll(at, t, from, ns) && ms == []
    ensures ns == []
  {
    if ns != [] {
      MatchNotBefore(at, t, from, |t|, ns[0]);
    }
  }

  /** Two lists that keep the promise from the same position agree on their first element. */
  lemma SameFirstMatch(at: Matcher, t: string, from: nat, ms: seq<Snippet>, ns: seq<Snippet>)
    requires IsMatchAll(at, t, from, ms) && IsMatchAll(at, t, from, ns) && ms != [] && ns != []
    ensures ms[0] == ns[0]
  {
    MatchNotBefore(at, t, from, ns[0].index, ms[0]);
    MatchNotBefore(at, t, from, ms[0].index, ns[0]);
  }

  /** There is only one list that keeps that promise, so the scanner's list is the answer. */
  lemma {:induction false} MatchAllUnique(at: Matcher, t: string, from: nat, ms: seq<Snippet>, ns: seq<Snippet>)
    requires IsMatchAll(at, t, from, ms) && IsMatchAll(at, t, from, ns)
    ensures ms == ns
    decreases |ms|
  {
    if ms == [] {
      NoMatchNoList(at, t, from, ms, ns);
    } else if ns == [] {
      NoMatchNoList(at, t, from, ns, ms);
    } else {
      SameFirstMatch(at, t, from, ms, ns);
      var m := ms[0];
      assert IsMatchAll(at, t, m.End(), ms[1..]) && IsMatchAll(at, t, m.End(), ns[1..]);
      MatchAllUnique(at, t, m.End(), ms[1..], ns[1..]);
      assert ms == [m] + ms[1..] && ns == [m] + ns[1..];
    }
  }

  /**
   * Each snippet's range is exactly `[index, index + |match|)` of the text, and the snippets
   * come in document order without overlapping.
   */
  lemma {:induction false} ScanFromRanges(at: Matcher, t: string, from: nat)
    requires from <= |t|
    ensures forall k :: 0 <= k < |ScanFrom(at, t, from)| ==>
      var m := ScanFrom(at, t, from)[k]; m.End() <= |t| && m.raw == t[m.index..m.End()]
    ensures forall k, l :: 0 <= k < l < |ScanFrom(at, t, from)| ==>
      ScanFrom(at, t, from)[k].End() <= ScanFrom(at, t, from)[l].index
    decreases |t| - from
  {
    match NextMatch(at, t, from)
    case None =>
    case Some(m) =>
      var rest := ScanFrom(at, t, m.End());
      ScanFromRanges(at, t, m.End());
      var r := [m] + rest;
      assert ScanFrom(at, t, from) == r;
      forall k, l | 0 <= k < l < |r| ensures r[k].End() <= r[l].index {
        assert r[l] == rest[l - 1];
        if k > 0 {
          assert r[k] == rest[k - 1];
        }
      }
  }

  // ---------------------------------------------------------------------------------------
  // The preview pattern.

  /** All the snippets of a document text, in document order. */
  function Scan(t: string): seq<Snippet> {
    ScanFrom(MatchAt, t, 0)
  }

  /** The snippets of a text are its `matchAll` list for the preview pattern, and only that. */
  lemma ScanSpec(t: string, ms: seq<Snippet>)
    ensures IsMatchAll(MatchAt, t, 0, Scan(t))
    ensures IsMatchAll(MatchAt, t, 0, ms) ==> ms == Scan(t)
  {
    ScanIsMatchAll(MatchAt, t, 0);
    if IsMatchAll(MatchAt, t, 0, ms) {
      MatchAllUnique(MatchAt, t, 0, ms, Scan(t));
    }
  }

  lemma ScanRanges(t: string)
    ensures forall k :: 0 <= k < |Scan(t)| ==>
      Scan(t)[k].End() <= |t| && Scan(t)[k].raw == t[Scan(t)[k].index..Scan(t)[k].End()]
    ensures forall k, l :: 0 <= k < l < |Scan(t)| ==> Scan(t)[k].End() <= Scan(t)[l].index
  {
    ScanFromRanges(MatchAt, t, 0);
  }

  /** A pattern does not occur where one of its characters is missing. */
  lemma MismatchAt(t: string, k: nat, pat: string, j: nat)
    requires j < |pat| && (k + j >= |t| || t[k + j] != pat[j])
    ensures !OccursAt(t, k, pat)
  {
    if k + |pat| <= |t| {
      assert t[k..k + |pat|][j] != pat[j];
    }
  }

  /** `<svg` must be followed by whitespace: `<svg></svg>` yields no snippet at all. */
  lemma BareSvgTagIgnored()
    ensures Scan("<svg></svg>") == []
  {
    var t := "<svg></svg>";
    forall p | 0 <= p < |t| ensures MatchAt(t, p).None? {
      assert t[p] != 'd';
      MismatchAt(t, p, DataPrefix, 0);
      if p == 0 {
        assert t[4] == '>';
      } else if p == 5 {
        assert t[6] == '/';
        MismatchAt(t, p, SvgOpen, 1);
      } else {
        assert t[p] != '<';
        MismatchAt(t, p, SvgOpen, 0);
      }
    }
    ScanSpec(t, []);
  }

  /** The document of the extension's decoration tests. */
  const TestSvg := "<svg xmlns=\"http://www.w3.org/2000/svg\"></svg>"

  lemma TestSvgTag()
    ensures FindChar(TestSvg, 5, '>') == Some(39)
  {
    var t := TestSvg;
    assert t[39] == '>';
    forall j | 5 <= j < 39 ensures t[j] != '>' {}
  }

  lemma TestSvgClose()
    ensures FindText(TestSvg, 40, SvgClose) == Some(40)
  {
    OccursAtByChars(TestSvg, 40, SvgClose);
  }

  lemma TestSvgMatch()
    ensures MatchAt(TestSvg, 0) == Some(Snippet(0, TestSvg, true))
  {
    var t := TestSvg;
    OccursAtByChars(t, 0, SvgOpen);
    assert IsWhitespace(t[4]);
    TestSvgTag();
    TestSvgClose();
    assert t[0..46] == t;
  }

  /** The whole test document is one svg snippet: range `[0, 46)`. */
  lemma TestSvgScan()
    ensures Scan(TestSvg) == [Snippet(0, TestSvg, true)]
  {
    TestSvgMatch();
    WholeTextScan(TestSvg);
  }

  /** A snippet at 0 that covers the whole text is all a scan finds. */
  lemma WholeTextScan(t: string)
    requires MatchAt(t, 0).Some? && MatchAt(t, 0).value.End() == |t|
    ensures Scan(t) == [MatchAt(t, 0).value]
  {
    assert 0 < |t|;
    assert NextMatch(MatchAt, t, 0) == MatchAt(t, 0);
    assert ScanFrom(MatchAt, t, |t|) == [];
  }

  /** The data URL of the extension's decoration tests. */
  const TestData := "data:image/png;base64,AAAA"

  lemma TestDataSubtype()
    ensures RunEnd(TestData, 11, IsWordChar) == 14
  {
    var t := TestData;
    assert IsWordChar(t[11]) && IsWordChar(t[12]) && IsWordChar(t[13]) && !IsWordChar(t[14]);
  }

  lemma TestDataPayload()
    ensures RunEnd(TestData, 22, IsBase64Char) == 26 && RunEnd(TestData, 26, IsPad) == 26
  {
    var t := TestData;
    assert IsBase64Char(t[22]) && IsBase64Char(t[23]) && IsBase64Char(t[24]) && IsBase64Char(t[25]);
  }

  lemma TestDataPrefix()
    ensures OccursAt(TestData, 0, DataPrefix)
  {
    OccursAtByChars(TestData, 0, DataPrefix);
  }

  lemma TestDataMarker()
    ensures TestData[14] == ';' && OccursAt(TestData, 14, Encoding.Base64Marker)
  {
    OccursAtByChars(TestData, 14, Encoding.Base64Marker);
  }

  lemma TestDataAlternative()
    ensures DataMatchAt(TestData, 0) == Some(Snippet(0, TestData, false))
  {
    TestDataPrefix();
    TestDataSubtype();
    TestDataMarker();
    TestDataPayload();
    assert TestData[0..26] == TestData;
  }

  lemma TestDataMatch()
    ensures MatchAt(TestData, 0) == Some(Snippet(0, TestData, false))
  {
    MismatchAt(TestData, 0, SvgOpen, 0);
    assert SvgMatchAt(TestData, 0).None?;
    TestDataAlternative();
  }

  /** The test data URL is one data snippet of 26 characters. */
  lemma TestDataScan()
    ensures Scan(TestData) == [Snippet(0, TestData, false)]
  {
    TestDataMatch();
    WholeTextScan(TestData);
  }

  // ---------------------------------------------------------------------------------------
  // The cache key: `svg.replace(/(?<=>)\s+|\s+(?=<)/g, '')`.

  /** Position `p` directly follows a `>` of the original text (the look-behind). */
  predicate AfterTagClose(s: string, p: nat) {
    0 < p <= |s| && s[p - 1] == '>'
  }

  /** Position `q` holds a `<` (the look-ahead). */
  predicate BeforeTagOpen(s: string, q: nat) {
    q < |s| && s[q] == '<'
  }

  /**
   * The replacement from position `p` on: a maximal whitespace run is deleted when it follows
   * `>` or precedes `<`; any other character is kept and the search moves one position on.
   */
  function NormalizeFrom(s: string, p: nat): string
    requires p <= |s|
    decreases |s| - p
  {
    if p == |s| then ""
    else if IsWhitespace(s[p]) && (AfterTagClose(s, p) || BeforeTagOpen(s, RunEnd(s, p, IsWhitespace))) then
      NormalizeFrom(s, RunEnd(s, p, IsWhitespace))
    else
      [s[p]] + NormalizeFrom(s, p + 1)
  }

  function Normalize(s: string): string {
    NormalizeFrom(s, 0)
  }

  /** No whitespace directly after `>` and none directly before `<`. */
  predicate IsNormalized(s: string) {
    forall i :: 0 <= i < |s| - 1 ==> !(s[i] == '>' && IsWhitespace(s[i + 1])) && !(IsWhitespace(s[i]) && s[i + 1] == '<')
  }

  /** After a `>` the replacement never leaves a whitespace character first. */
  lemma {:induction false} NoWhitespaceFirstAfterClose(s: string, p: nat)
    requires AfterTagClose(s, p)
    ensures |NormalizeFrom(s, p)| > 0 ==> !IsWhitespace(NormalizeFrom(s, p)[0])
  {
    if p < |s| && IsWhitespace(s[p]) {
      var q := RunEnd(s, p, IsWhitespace);
      if q < |s| {
        assert NormalizeFrom(s, q) == [s[q]] + NormalizeFrom(s, q + 1);
      }
    }
  }

  /** A kept whitespace character is never followed by a kept `<`. */
  lemma {:induction false} NoOpenAfterKeptWhitespace(s: string, p: nat)
    requires p < |s| && IsWhitespace(s[p]) && !AfterTagClose(s, p)
    requires !BeforeTagOpen(s, RunEnd(s, p, IsWhitespace))
    ensures |NormalizeFrom(s, p + 1)| > 0 ==> NormalizeFrom(s, p + 1)[0] != '<'
  {
    var q := RunEnd(s, p, IsWhitespace);
    if p + 1 < q {
      assert RunEnd(s, p + 1, IsWhitespace) == q by { RunEndShift(s, p); }
      assert NormalizeFrom(s, p + 1) == [s[p + 1]] + NormalizeFrom(s, p + 2);
    } else if p + 1 < |s| {
      assert NormalizeFrom(s, p + 1) == [s[p + 1]] + NormalizeFrom(s, p + 2);
    }
  }

  /** Inside one whitespace run, the run ends at the same place from every position. */
  lemma RunEndShift(s: string, p: nat)
    requires p < |s| && IsWhitespace(s[p])
    ensures RunEnd(s, p + 1, IsWhitespace) == RunEnd(s, p, IsWhitespace)
  {
  }

  /** The normalised key has no whitespace right after `>` and none right before `<`. */
  lemma {:induction false} NormalizeFromIsNormalized(s: string, p: nat)
    requires p <= |s|
    ensures IsNormalized(NormalizeFrom(s, p))
    decreases |s| - p
  {
    if p == |s| {
    } else if IsWhitespace(s[p]) && (AfterTagClose(s, p) || BeforeTagOpen(s, RunEnd(s, p, IsWhitespace))) {
      NormalizeFromIsNormalized(s, RunEnd(s, p, IsWhitespace));
    } else {
      var rest := NormalizeFrom(s, p + 1);
      NormalizeFromIsNormalized(s, p + 1);
      if s[p] == '>' {
        NoWhitespaceFirstAfterClose(s, p + 1);
      }
      if IsWhitespace(s[p]) {
        NoOpenAfterKeptWhitespace(s, p);
      }
      var r := [s[p]] + rest;
      forall i | 0 <= i < |r| - 1
        ensures !(r[i] == '>' && IsWhitespace(r[i + 1])) && !(IsWhitespace(r[i]) && r[i + 1] == '<')
      {
        if i > 0 {
          assert r[i] == rest[i - 1] && r[i + 1] == rest[i];
        }
      }
    }
  }

  lemma NormalizeIsNormalized(s: string)
    ensures IsNormalized(Normalize(s))
  {
    NormalizeFromIsNormalized(s, 0);
  }

  lemma NormalizedAt(s: string, i: nat)
    requires IsNormalized(s) && i < |s| - 1
    ensures s[i] == '>' ==> !IsWhitespace(s[i + 1])
    ensures s[i + 1] == '<' ==> !IsWhitespace(s[i])
  {
  }

  /** Text that is already normalised is left unchanged from any position on. */
  lemma {:induction false} NormalizedUnchanged(s: string, p: nat)
    requires p <= |s| && IsNormalized(s)
    ensures NormalizeFrom(s, p) == s[p..]
    decreases |s| - p
  {
    if p < |s| {
      if IsWhitespace(s[p]) {
        var q := RunEnd(s, p, IsWhitespace);
        if p > 0 {
          NormalizedAt(s, p - 1);
        }
        if q < |s| {
          NormalizedAt(s, q - 1);
        }
      }
      NormalizedUnchanged(s, p + 1);
      assert s[p..] == [s[p]] + s[p + 1..];
    }
  }

  /** Normalising is idempotent: a key normalises to itself. */
  lemma NormalizeIdempotent(s: string)
    ensures Normalize(Normalize(s)) == Normalize(s)
  {
    NormalizeIsNormalized(s);
    NormalizedUnchanged(Normalize(s), 0);
  }

  /** The text without any whitespace: what normalisation must not change. */
  function Ink(s: string): string {
    if s == [] then [] else (if IsWhitespace(s[0]) then [] else [s[0]]) + Ink(s[1..])
  }

  lemma {:induction false} InkOfWhitespaceRun(s: string, p: nat, q: nat)
    requires p <= q <= |s| && forall j :: p <= j < q ==> IsWhitespace(s[j])
    ensures Ink(s[p..]) == Ink(s[q..])
    decreases q - p
  {
    if p < q {
      assert s[p..][1..] == s[p + 1..];
      InkOfWhitespaceRun(s, p + 1, q);
    }
  }

  /** Only whitespace is deleted: the other characters survive, in their order. */
  lemma {:induction false} NormalizeFromKeepsInk(s: string, p: nat)
    requires p <= |s|
    ensures Ink(NormalizeFrom(s, p)) == Ink(s[p..])
    decreases |s| - p
  {
    if p == |s| {
    } else if IsWhitespace(s[p]) && (AfterTagClose(s, p) || BeforeTagOpen(s, RunEnd(s, p, IsWhitespace))) {
      var q := RunEnd(s, p, IsWhitespace);
      NormalizeFromKeepsInk(s, q);
      InkOfWhitespaceRun(s, p, q);
    } else {
      NormalizeFromKeepsInk(s, p + 1);
      var r := [s[p]] + NormalizeFrom(s, p + 1);
      assert r[1..] == NormalizeFrom(s, p + 1);
      assert s[p..][1..] == s[p + 1..];
    }
  }

  lemma NormalizeKeepsInk(s: string)
    ensures Ink(Normalize(s)) == Ink(s)
  {
    NormalizeFromKeepsInk(s, 0);
    assert s[0..] == s;
  }

  /** An svg snippet's key starts with the `<` of its opening tag, so it is never empty. */
  lemma SvgKeyNotEmpty(s: string)
    requires StartsWith(s, SvgOpen)
    ensures |Normalize(s)| > 0 && Normalize(s)[0] == '<'
  {
    assert s[0] == '<';
  }
}
