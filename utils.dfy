/**
 * URL extraction from free text (utils.py).
 *
 * utils.py compiles the pattern `https?://[^\s)>\]]+` and collects every
 * match of `findall` (leftmost, non-overlapping, greedy), then drops repeats
 * with a `seen` set while keeping the order of first occurrence. Here the
 * pattern is a scanner over the characters of the text: `MatchEnd` decides
 * whether a match starts at an index and where it ends, `Spans` is the
 * left-to-right `findall` scan, and `ExtractUrls` is the de-duplicating loop.
 */
module Utils {
  import opened Wrappers
  import opened Seqs

  /**
   * Python's `\s` in a `str` pattern: the characters for which
   * `str.isspace()` holds, i.e. U+0009..U+000D, U+001C..U+001F, U+0020,
   * U+0085, U+00A0, U+1680, U+2000..U+200A, U+2028, U+2029, U+202F, U+205F
   * and U+3000.
   */
  predicate IsSpace(c: char) {
    c as int in SpaceCodes
  }

  /** The code points of the characters listed above. */
  const SpaceCodes: set<int> := {
    0x09, 0x0A, 0x0B, 0x0C, 0x0D, 0x1C, 0x1D, 0x1E, 0x1F, 0x20, 0x85, 0xA0, 0x1680,
    0x2000, 0x2001, 0x2002, 0x2003, 0x2004, 0x2005, 0x2006, 0x2007, 0x2008, 0x2009, 0x200A,
    0x2028, 0x2029, 0x202F, 0x205F, 0x3000
  }

  /** A character outside the class `[^\s)>\]]`: it ends a URL. */
  predicate IsTerminator(c: char) {
    IsSpace(c) || c == ')' || c == '>' || c == ']'
  }

  const HttpsScheme: string := "https://"
  const HttpScheme: string := "http://"

  /** The text spells "https://" from index `i` on. */
  predicate HttpsAt(t: string, i: nat) {
    i + 8 <= |t| && t[i] == 'h' && t[i + 1] == 't' && t[i + 2] == 't' && t[i + 3] == 'p'
    && t[i + 4] == 's' && t[i + 5] == ':' && t[i + 6] == '/' && t[i + 7] == '/'
  }

  /** The text spells "http://" from index `i` on. */
  predicate HttpAt(t: string, i: nat) {
    i + 7 <= |t| && t[i] == 'h' && t[i + 1] == 't' && t[i + 2] == 't' && t[i + 3] == 'p'
    && t[i + 4] == ':' && t[i + 5] == '/' && t[i + 6] == '/'
  }

  /** The character tests above are the prefix tests they are named after. */
  lemma SchemeSpelling(t: string, i: nat)
    requires i <= |t|
    ensures HttpsAt(t, i) <==> StartsWith(t[i..], HttpsScheme)
    ensures HttpAt(t, i) <==> StartsWith(t[i..], HttpScheme)
  {
    if HttpsAt(t, i) {
      assert t[i..][..8] == HttpsScheme;
    }
    if StartsWith(t[i..], HttpsScheme) {
      assert t[i..][..8][4] == 's';
    }
    if HttpAt(t, i) {
      assert t[i..][..7] == HttpScheme;
    }
    if StartsWith(t[i..], HttpScheme) {
      assert t[i..][..7][4] == ':';
    }
  }

  /** The end of the maximal run of non-terminators that starts at `j`. */
  function RunEnd(t: string, j: nat): (k: nat)
    requires j <= |t|
    ensures j <= k <= |t|
    ensures forall m :: j <= m < k ==> !IsTerminator(t[m])
    ensures k == |t| || IsTerminator(t[k])
    decreases |t| - j
  {
    if j == |t| || IsTerminator(t[j]) then j else RunEnd(t, j + 1)
  }

  /**
   * Where a match of `https?://[^\s)>\]]+` that starts at `i` ends, if one
   * does. The greedy `s?` is tried first; when "https://" is not followed
   * by a URL character the regex backtracks to "http", which then needs
   * "://" where the text has "s://", so only one alternative can apply.
   */
  function MatchEnd(t: string, i: nat): (r: Option<nat>)
    requires i <= |t|
    ensures r.Some? ==> i + 8 <= r.value <= |t|
    ensures r.Some? && HttpsAt(t, i) ==> i + 9 <= r.value
  {
    if HttpsAt(t, i) && i + 8 < |t| && !IsTerminator(t[i + 8]) then Some(RunEnd(t, i + 8))
    else if HttpAt(t, i) && i + 7 < |t| && !IsTerminator(t[i + 7]) then Some(RunEnd(t, i + 7))
    else None
  }

  /**
   * A match starts at `i` exactly when a scheme there is followed by a URL
   * character; it is longer than its scheme, holds no terminator, and ends
   * at a terminator or at the end of the text (it cannot be extended).
   */
  lemma MatchEndMaximal(t: string, i: nat)
    requires i <= |t|
    ensures MatchEnd(t, i).Some? <==>
      (HttpsAt(t, i) && i + 8 < |t| && !IsTerminator(t[i + 8]))
      || (HttpAt(t, i) && i + 7 < |t| && !IsTerminator(t[i + 7]))
    ensures MatchEnd(t, i).Some? ==>
      var e := MatchEnd(t, i).value;
      && ((HttpsAt(t, i) && i + 8 < e) || (HttpAt(t, i) && i + 7 < e))
      && (forall m :: i <= m < e ==> !IsTerminator(t[m]))
      && (e == |t| || IsTerminator(t[e]))
  {
  }

  /** The start and end index of one regex match. */
  datatype Span = Span(start: nat, end: nat)

  /**
   * The match positions `findall` visits from index `i` on: try a match at
   * the current index; on success record it and resume at its end,
   * otherwise move one character on.
   */
  function Spans(t: string, i: nat): seq<Span>
    requires i <= |t|
    decreases |t| - i
  {
    if i == |t| then []
    else
      match MatchEnd(t, i)
      case Some(e) => [Span(i, e)] + Spans(t, e)
      case None => Spans(t, i + 1)
  }

  /**
   * Every recorded span is a match of the pattern at its start, ending where
   * `MatchEnd` says, and the spans come in increasing, non-overlapping order.
   */
  lemma {:induction false} SpansMatches(t: string, i: nat)
    requires i <= |t|
    ensures forall k :: 0 <= k < |Spans(t, i)| ==>
      i <= Spans(t, i)[k].start < Spans(t, i)[k].end <= |t|
      && MatchEnd(t, Spans(t, i)[k].start) == Some(Spans(t, i)[k].end)
    ensures forall k, l :: 0 <= k < l < |Spans(t, i)| ==> Spans(t, i)[k].end <= Spans(t, i)[l].start
    decreases |t| - i
  {
    if i < |t| {
      match MatchEnd(t, i)
      case Some(e) =>
        SpansMatches(t, e);
        var sp, rest := Spans(t, i), Spans(t, e);
        assert sp == [Span(i, e)] + rest;
        forall k | 0 < k < |sp| ensures sp[k] == rest[k - 1] { }
      case None =>
        SpansMatches(t, i + 1);
    }
  }

  /** The text between the bounds of one span ("" for bounds outside the text, which `Spans` never yields). */
  function Slice(t: string, sp: Span): string {
    if sp.start <= sp.end <= |t| then t[sp.start..sp.end] else ""
  }

  /** The substrings of `t` that the spans delimit. */
  function Slices(t: string, sp: seq<Span>): seq<string> {
    if sp == [] then [] else [Slice(t, sp[0])] + Slices(t, sp[1..])
  }

  /** `_URL_RE.findall(t)`. */
  function Findall(t: string): seq<string> {
    Slices(t, Spans(t, 0))
  }

  /** `text or ""`: None and the empty string both scan as "". */
  function TextOrEmpty(text: Option<string>): string {
    text.GetOr("")
  }

  /** The value `extract_urls` returns, for use where a method cannot be called. */
  function Extracted(text: Option<string>): seq<string> {
    Unique(Findall(TextOrEmpty(text)))
  }

  /**
   * The shape of every string the regex can match: a scheme, at least one
   * more character, and not one terminator anywhere.
   */
  predicate IsUrlToken(u: string) {
    && ((HttpsAt(u, 0) && |u| > 8) || (HttpAt(u, 0) && |u| > 7))
    && (forall m :: 0 <= m < |u| ==> !IsTerminator(u[m]))
  }

  /**
   * A URL token begins with "https://" or "http://", is at least 8
   * characters long, and holds no whitespace, `)`, `>` or `]`.
   */
  lemma UrlTokenShape(u: string)
    requires IsUrlToken(u)
    ensures StartsWith(u, HttpsScheme) || StartsWith(u, HttpScheme)
    ensures |u| >= 8
    ensures forall c :: c in u ==> !IsSpace(c) && c != ')' && c != '>' && c != ']'
  {
    SchemeSpelling(u, 0);
    assert u[0..] == u;
  }

  /** `extract_urls(text)`: the matches of `findall`, first occurrences only, in order. */
  method ExtractUrls(text: Option<string>) returns (out: seq<string>)
    ensures out == Extracted(text)
    ensures NoDup(out)
    ensures forall u :: u in out <==> u in Findall(TextOrEmpty(text))
    ensures forall u :: u in out ==> IsUrlToken(u)
  {
    var ms := Findall(TextOrEmpty(text));
    var seen: set<string> := {};
    out := [];
    var i := 0;
    while i < |ms|
      invariant 0 <= i <= |ms|
      invariant out == Unique(ms[..i])
      invariant seen == set u | u in out
    {
      var m := ms[i];
      if m !in seen {
        seen := seen + {m};
        out := out + [m];
      }
      assert ms[..i + 1][..i] == ms[..i];
      i := i + 1;
    }
    assert ms[..i] == ms;
    UniqueNoDup(ms);
    UniqueElements(ms);
    FindallTokens(TextOrEmpty(text));
  }

  /** A match, sliced out of the text, has the shape of a URL token. */
  lemma MatchIsToken(t: string, s: nat, e: nat)
    requires s <= |t| && MatchEnd(t, s) == Some(e)
    ensures e <= |t| && IsUrlToken(t[s..e])
  {
    var u := t[s..e];
    MatchEndMaximal(t, s);
    forall m | 0 <= m < |u| ensures !IsTerminator(u[m]) {
      assert u[m] == t[s + m];
    }
  }

  /** Each slice of a span list is the text between the span's bounds. */
  lemma {:induction false} SlicesAt(t: string, sp: seq<Span>, k: nat)
    requires forall j :: 0 <= j < |sp| ==> sp[j].start <= sp[j].end <= |t|
    requires k < |sp|
    ensures |Slices(t, sp)| == |sp| && Slices(t, sp)[k] == t[sp[k].start..sp[k].end]
  {
    if k > 0 {
      SlicesAt(t, sp[1..], k - 1);
    } else if |sp| > 1 {
      SlicesAt(t, sp[1..], 0);
    }
  }

  /** `u` occurs in `t` as a piece that cannot be extended to the right. */
  predicate MaximalPiece(t: string, u: string) {
    exists s, e :: 0 <= s < e <= |t| && u == t[s..e] && (e == |t| || IsTerminator(t[e]))
  }

  /**
   * Every match is a non-empty contiguous piece of the text that ends at a
   * terminator or at the end of the text.
   */
  lemma FindallSubstrings(t: string)
    ensures forall k :: 0 <= k < |Findall(t)| ==> MaximalPiece(t, Findall(t)[k])
  {
    var sp := Spans(t, 0);
    SpansMatches(t, 0);
    forall k | 0 <= k < |Findall(t)| ensures MaximalPiece(t, Findall(t)[k]) {
      SlicesAt(t, sp, 0);
      SlicesAt(t, sp, k);
      var s, e := sp[k].start, sp[k].end;
      MatchEndMaximal(t, s);
      assert Findall(t)[k] == t[s..e];
    }
  }

  /** Every match has the shape of a URL token. */
  lemma FindallTokens(t: string)
    ensures forall u :: u in Findall(t) ==> IsUrlToken(u)
  {
    var sp := Spans(t, 0);
    SpansMatches(t, 0);
    forall u | u in Findall(t) ensures IsUrlToken(u) {
      var k :| 0 <= k < |Findall(t)| && Findall(t)[k] == u;
      SlicesAt(t, sp, 0);
      SlicesAt(t, sp, k);
      MatchIsToken(t, sp[k].start, sp[k].end);
    }
  }

  /**
   * The scan is leftmost: every index at which a match could start lies
   * inside one of the recorded matches, so no match is skipped. Together
   * with `SpansMatches` this says the spans are exactly the non-overlapping
   * leftmost matches.
   */
  lemma {:induction false} SpansLeftmost(t: string, i: nat, p: nat)
    requires i <= p < |t| && MatchEnd(t, p).Some?
    ensures exists k :: 0 <= k < |Spans(t, i)| && Spans(t, i)[k].start <= p < Spans(t, i)[k].end
    decreases |t| - i
  {
    var sp := Spans(t, i);
    match MatchEnd(t, i)
    case Some(e) =>
      if p < e {
        assert sp[0] == Span(i, e);
      } else {
        SpansLeftmost(t, e, p);
        var k :| 0 <= k < |Spans(t, e)| && Spans(t, e)[k].start <= p < Spans(t, e)[k].end;
        assert sp[k + 1] == Spans(t, e)[k];
      }
    case None =>
      SpansLeftmost(t, i + 1, p);
  }

  /** A text in which neither scheme occurs yields no URLs. */
  lemma {:induction false} NoSchemeNoUrls(t: string, i: nat)
    requires i <= |t|
    requires forall j :: i <= j < |t| ==> !HttpAt(t, j) && !HttpsAt(t, j)
    ensures Spans(t, i) == []
    ensures i == 0 ==> Findall(t) == [] && Extracted(Some(t)) == []
    decreases |t| - i
  {
    if i < |t| {
      NoSchemeNoUrls(t, i + 1);
    }
  }

  /** The empty text and a missing text both give an empty list. */
  lemma EmptyTextNoUrls()
    ensures Extracted(None) == [] && Extracted(Some("")) == []
  {
  }

  /** `" ".join(us)`. */
  function JoinSpace(us: seq<string>): string {
    if |us| == 0 then ""
    else if |us| == 1 then us[0]
    else us[0] + " " + JoinSpace(us[1..])
  }

  /** A URL token placed in text, followed by a terminator or the end, is matched whole. */
  lemma TokenMatchedWhole(t: string, i: nat, u: string)
    requires IsUrlToken(u) && i + |u| <= |t| && t[i..i + |u|] == u
    requires i + |u| == |t| || IsTerminator(t[i + |u|])
    ensures MatchEnd(t, i) == Some(i + |u|)
  {
    assert forall m :: 0 <= m < |u| ==> t[i + m] == u[m];
    MatchEndMaximal(t, i);
  }

  /**
   * `t[i..]` consists of the tokens `us` separated by single spaces, stated
   * token by token.
   */
  predicate JoinedAt(t: string, i: nat, us: seq<string>)
    decreases |us|
  {
    if |us| == 0 then i == |t|
    else
      && i + |us[0]| <= |t| && t[i..i + |us[0]|] == us[0]
      && if |us| == 1 then i + |us[0]| == |t|
         else i + |us[0]| < |t| && t[i + |us[0]|] == ' ' && JoinedAt(t, i + |us[0]| + 1, us[1..])
  }

  /** Unfolding the layout once: the first token, a space, then the rest laid out. */
  lemma JoinedAtTail(t: string, i: nat, us: seq<string>)
    requires JoinedAt(t, i, us) && |us| > 1
    ensures i + |us[0]| < |t| && t[i..i + |us[0]|] == us[0] && t[i + |us[0]|] == ' '
    ensures JoinedAt(t, i + |us[0]| + 1, us[1..])
  {
  }

  /** The space-joined string is laid out token by token. */
  lemma {:induction false} JoinSpaceJoinedAt(t: string, i: nat, us: seq<string>)
    requires i <= |t| && t[i..] == JoinSpace(us)
    ensures JoinedAt(t, i, us)
    decreases |us|
  {
    if |us| > 0 {
      var e := i + |us[0]|;
      assert t[i..][..|us[0]|] == us[0];
      assert t[i..e] == t[i..][..|us[0]|];
      if |us| > 1 {
        assert t[e] == t[i..][|us[0]|];
        assert t[e + 1..] == t[i..][|us[0]| + 1..];
        JoinSpaceJoinedAt(t, e + 1, us[1..]);
      }
    }
  }

  /** A match at `i` is recorded, and the scan resumes at its end. */
  lemma SpansAtMatch(t: string, i: nat, e: nat)
    requires i < |t| && MatchEnd(t, i) == Some(e)
    ensures e <= |t| && Spans(t, i) == [Span(i, e)] + Spans(t, e)
  {
  }

  /** A space cannot start a match, so the scan moves past it. */
  lemma SpansSkipSpace(t: string, e: nat)
    requires e < |t| && t[e] == ' '
    ensures Spans(t, e) == Spans(t, e + 1)
  {
    assert t[e..][0] == ' ';
    assert MatchEnd(t, e) == None;
  }

  /** Slicing a span list whose first span is `(i, e)`. */
  lemma SlicesCons(t: string, i: nat, e: nat, rest: seq<Span>)
    requires i <= e <= |t|
    ensures Slices(t, [Span(i, e)] + rest) == [t[i..e]] + Slices(t, rest)
  {
    assert ([Span(i, e)] + rest)[1..] == rest;
  }

  /** Every element is a URL token, stated element by element from the front. */
  predicate AllTokens(us: seq<string>) {
    |us| == 0 || (IsUrlToken(us[0]) && AllTokens(us[1..]))
  }

  /** A list whose members are all URL tokens satisfies `AllTokens`. */
  lemma {:induction false} AllTokensFromMembers(us: seq<string>)
    requires forall u :: u in us ==> IsUrlToken(u)
    ensures AllTokens(us)
  {
    if |us| > 0 {
      assert us[0] in us;
      assert forall u :: u in us[1..] ==> u in us;
      AllTokensFromMembers(us[1..]);
    }
  }

  /** Where the tokens of `us`, laid out from `i` with one space between them, begin and end. */
  function Layout(i: nat, us: seq<string>): seq<Span>
    decreases |us|
  {
    if us == [] then [] else [Span(i, i + |us[0]|)] + Layout(i + |us[0]| + 1, us[1..])
  }

  /** Slicing a laid-out text at the layout's spans gives back the tokens. */
  lemma {:induction false} SlicesOfLayout(t: string, i: nat, us: seq<string>)
    requires JoinedAt(t, i, us)
    ensures Slices(t, Layout(i, us)) == us
    decreases |us|
  {
    if |us| == 1 {
      SlicesCons(t, i, i + |us[0]|, []);
    } else if |us| > 1 {
      JoinedAtTail(t, i, us);
      SlicesCons(t, i, i + |us[0]|, Layout(i + |us[0]| + 1, us[1..]));
      SlicesOfLayout(t, i + |us[0]| + 1, us[1..]);
    }
  }

  /** The scan of a laid-out text of URL tokens finds exactly the layout's spans. */
  lemma {:induction false} SpansOfLayout(t: string, i: nat, us: seq<string>)
    requires i <= |t| && JoinedAt(t, i, us) && AllTokens(us)
    ensures Spans(t, i) == Layout(i, us)
    decreases |us|
  {
    if |us| == 1 {
      TokenMatchedWhole(t, i, us[0]);
      SpansAtMatch(t, i, |t|);
    } else if |us| > 1 {
      var e := i + |us[0]|;
      JoinedAtTail(t, i, us);
      TokenMatchedWhole(t, i, us[0]);
      SpansAtMatch(t, i, e);
      SpansSkipSpace(t, e);
      SpansOfLayout(t, e + 1, us[1..]);
    }
  }

  /** Scanning the space-joined tokens from where they begin gives the tokens back. */
  lemma ScanJoin(t: string, i: nat, us: seq<string>)
    requires i <= |t| && JoinedAt(t, i, us) && AllTokens(us)
    ensures Slices(t, Spans(t, i)) == us
  {
    SpansOfLayout(t, i, us);
    SlicesOfLayout(t, i, us);
  }

  /**
   * Extraction is idempotent: extracting from the space-joined result gives
   * back the same list, because every result is a maximal run and a space
   * ends it.
   */
  lemma ExtractIdempotent(text: Option<string>)
    ensures Extracted(Some(JoinSpace(Extracted(text)))) == Extracted(text)
  {
    var t := TextOrEmpty(text);
    var out := Extracted(text);
    UniqueElements(Findall(t));
    UniqueNoDup(Findall(t));
    FindallTokens(t);
    AllTokensFromMembers(out);
    var j := JoinSpace(out);
    assert j[0..] == j;
    JoinSpaceJoinedAt(j, 0, out);
    ScanJoin(j, 0, out);
    UniqueOfNoDup(out);
  }

  /** The de-duplicated list keeps every match and lists them by first occurrence. */
  lemma ExtractedOrder(text: Option<string>)
    ensures forall u :: u in Extracted(text) <==> u in Findall(TextOrEmpty(text))
    ensures forall k, l :: 0 <= k < l < |Extracted(text)| ==>
      FirstIndex(Findall(TextOrEmpty(text)), Extracted(text)[k])
        < FirstIndex(Findall(TextOrEmpty(text)), Extracted(text)[l])
  {
    UniqueElements(Findall(TextOrEmpty(text)));
    UniqueFirstOccurrenceOrder(Findall(TextOrEmpty(text)));
  }
}
