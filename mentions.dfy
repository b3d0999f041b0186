/**
 * The mention extractor of the notification handler: Go's
 * `regexp.FindAllString` for the pattern
 *     @([\w.%+-]+@[\w.-]+\.[a-zA-Z]{2,})
 * written as a scanner over the text. `\w` is ASCII `[0-9A-Za-z_]`.
 *
 * `IsMatch` states which substrings the pattern matches (its language);
 * `MatchAt` is the match Go's leftmost-first engine picks at one start
 * position; `Scan` is the left-to-right, non-overlapping search.
 */
module Mentions {
  import opened Wrappers

  predicate IsAsciiLetter(c: char)
  {
    'a' <= c <= 'z' || 'A' <= c <= 'Z'
  }

  /** `\w` in Go's RE2 syntax. */
  predicate IsWordChar(c: char)
  {
    IsAsciiLetter(c) || '0' <= c <= '9' || c == '_'
  }

  /** The three character classes of the pattern. */
  datatype CharClass =
    | LocalPart   // [\w.%+-]
    | DomainPart  // [\w.-]
    | Letters     // [a-zA-Z]

  predicate InClass(c: char, cls: CharClass)
  {
    match cls
    case LocalPart => IsWordChar(c) || c == '.' || c == '%' || c == '+' || c == '-'
    case DomainPart => IsWordChar(c) || c == '.' || c == '-'
    case Letters => IsAsciiLetter(c)
  }

  ghost predicate AllIn(s: string, lo: nat, hi: nat, cls: CharClass)
    requires lo <= hi <= |s|
  {
    forall k :: lo <= k < hi ==> InClass(s[k], cls)
  }

  /**
   * `s[p..e]` is an instance of the pattern whose second `@` is at `q` and
   * whose dot before the top-level domain is at `k`.
   */
  ghost predicate MentionSplit(s: string, p: nat, q: nat, k: nat, e: nat)
  {
    && p + 1 < q && q + 1 < k && k + 2 < e && e <= |s|
    && s[p] == '@' && AllIn(s, p + 1, q, LocalPart)
    && s[q] == '@' && AllIn(s, q + 1, k, DomainPart)
    && s[k] == '.' && AllIn(s, k + 1, e, Letters)
  }

  /** The pattern matches `s[p..e]`. */
  ghost predicate IsMatch(s: string, p: nat, e: nat)
  {
    exists q: nat, k: nat :: MentionSplit(s, p, q, k, e)
  }

  /** The pattern matches the whole of `m`. */
  ghost predicate IsMention(m: string)
  {
    IsMatch(m, 0, |m|)
  }

  /** The end of the longest run of class characters starting at `i` (a greedy `+`). */
  function RunEnd(s: string, i: nat, cls: CharClass): (r: nat)
    requires i <= |s|
    ensures i <= r <= |s|
    ensures AllIn(s, i, r, cls)
    ensures r < |s| ==> !InClass(s[r], cls)
    decreases |s| - i
  {
    if i < |s| && InClass(s[i], cls) then RunEnd(s, i + 1, cls) else i
  }

  /** A dot at `k`, followed by two letters, all before `hi`. */
  predicate TldDot(s: string, k: nat, hi: nat)
    requires hi <= |s|
  {
    k + 2 < hi && s[k] == '.' && IsAsciiLetter(s[k + 1]) && IsAsciiLetter(s[k + 2])
  }

  /** The rightmost such dot in `[lo, k)`: where the greedy `[\w.-]+` stops backtracking. */
  function LastTldDot(s: string, lo: nat, hi: nat, k: nat): (r: Option<nat>)
    requires lo <= k <= hi <= |s|
    ensures r.Some? ==> lo <= r.value < k && TldDot(s, r.value, hi)
    ensures r.Some? ==> forall j :: r.value < j < k ==> !TldDot(s, j, hi)
    ensures r.None? ==> forall j :: lo <= j < k ==> !TldDot(s, j, hi)
    decreases k - lo
  {
    if k == lo then None
    else if TldDot(s, k - 1, hi) then Some(k - 1)
    else LastTldDot(s, lo, hi, k - 1)
  }

  /**
   * The end of the match the leftmost-first engine finds starting at `p`,
   * if any: the whole local run, which must stop at `@`; the rightmost dot
   * of the domain run that has a run character before it and two letters
   * after it; then every letter after that dot.
   */
  function MatchAt(s: string, p: nat): (r: Option<nat>)
    requires p < |s|
    ensures r.Some? ==> p < r.value <= |s| && s[p] == '@'
  {
    if s[p] != '@' then None
    else
      var q := RunEnd(s, p + 1, LocalPart);
      if q == p + 1 || q == |s| || s[q] != '@' then None
      else
        var d := RunEnd(s, q + 1, DomainPart);
        if d < q + 2 then None
        else
          match LastTldDot(s, q + 2, d, d)
          case None => None
          case Some(k) => Some(RunEnd(s, k + 1, Letters))
  }

  /** A run of class characters reaches at least as far as any class-only stretch. */
  lemma RunEndCovers(s: string, i: nat, j: nat, cls: CharClass)
    requires i <= j <= |s| && AllIn(s, i, j, cls)
    ensures j <= RunEnd(s, i, cls)
  {
  }

  /** A run that stops at a non-class character, or at the end, is exactly that run. */
  lemma RunEndExact(s: string, i: nat, j: nat, cls: CharClass)
    requires i <= j <= |s| && AllIn(s, i, j, cls) && (j == |s| || !InClass(s[j], cls))
    ensures RunEnd(s, i, cls) == j
  {
    RunEndCovers(s, i, j, cls);
  }

  /** What `MatchAt` returns is a match of the pattern. */
  lemma MatchAtSound(s: string, p: nat)
    requires p < |s| && MatchAt(s, p).Some?
    ensures IsMatch(s, p, MatchAt(s, p).value)
  {
    var q := RunEnd(s, p + 1, LocalPart);
    var d := RunEnd(s, q + 1, DomainPart);
    var k := LastTldDot(s, q + 2, d, d).value;
    var e := RunEnd(s, k + 1, Letters);
    RunEndCovers(s, k + 1, k + 3, Letters);
    assert MentionSplit(s, p, q, k, e);
  }

  /** In a match, the local part is the whole run and stops at the second `@`. */
  lemma LocalRunStopsAtAt(s: string, p: nat, q: nat, k: nat, e: nat)
    requires MentionSplit(s, p, q, k, e)
    ensures RunEnd(s, p + 1, LocalPart) == q
  {
    RunEndCovers(s, p + 1, q, LocalPart);
    assert !InClass(s[q], LocalPart);
  }

  /** In a match, the domain run reaches past the top-level domain. */
  lemma DomainRunCoversMatch(s: string, p: nat, q: nat, k: nat, e: nat)
    requires MentionSplit(s, p, q, k, e)
    ensures e <= RunEnd(s, q + 1, DomainPart)
    ensures TldDot(s, k, RunEnd(s, q + 1, DomainPart))
  {
    assert AllIn(s, q + 1, e, DomainPart);
    RunEndCovers(s, q + 1, e, DomainPart);
  }

  /**
   * Any match of the pattern starting at `p` is found by `MatchAt`, and the
   * one it picks is the longest: here leftmost-first coincides with
   * leftmost-longest.
   */
  lemma MatchAtComplete(s: string, p: nat, e': nat)
    requires p < |s| && IsMatch(s, p, e')
    ensures MatchAt(s, p).Some? && e' <= MatchAt(s, p).value
  {
    var q: nat, k': nat :| MentionSplit(s, p, q, k', e');
    LocalRunStopsAtAt(s, p, q, k', e');
    DomainRunCoversMatch(s, p, q, k', e');
    var d := RunEnd(s, q + 1, DomainPart);
    var k := LastTldDot(s, q + 2, d, d).value;
    if k == k' {
      RunEndCovers(s, k + 1, e', Letters);
    } else {
      RunEndCovers(s, k + 1, k + 3, Letters);
    }
  }

  /** A match found by the scan: `s[start..end]`. */
  datatype Span = Span(start: nat, end: nat)

  /**
   * `FindAllString` from position `pos`: the leftmost match, then the
   * search resumes at its end. The spans are ordered, disjoint, and each
   * is the match `MatchAt` picks at its start.
   */
  function Scan(s: string, pos: nat): (spans: seq<Span>)
    requires pos <= |s|
    ensures forall i :: 0 <= i < |spans| ==>
              pos <= spans[i].start < spans[i].end <= |s| && MatchAt(s, spans[i].start) == Some(spans[i].end)
    ensures forall i, j :: 0 <= i < j < |spans| ==> spans[i].end <= spans[j].start
    decreases |s| - pos
  {
    if pos == |s| then []
    else
      match MatchAt(s, pos)
      case Some(e) => [Span(pos, e)] + Scan(s, e)
      case None => Scan(s, pos + 1)
  }

  /** Position `p` lies inside one of the spans. */
  ghost predicate Covers(spans: seq<Span>, p: nat)
  {
    exists i :: 0 <= i < |spans| && spans[i].start <= p < spans[i].end
  }

  /** Prepending a span keeps every covered position covered. */
  lemma CoversCons(sp: Span, rest: seq<Span>, p: nat)
    requires Covers(rest, p) || sp.start <= p < sp.end
    ensures Covers([sp] + rest, p)
  {
    var spans := [sp] + rest;
    if sp.start <= p < sp.end {
      assert spans[0] == sp;
    } else {
      var i :| 0 <= i < |rest| && rest[i].start <= p < rest[i].end;
      assert spans[i + 1] == rest[i];
    }
  }

  /** Every position where `MatchAt` succeeds lies inside a span. */
  lemma {:induction false} ScanCoversMatchStarts(s: string, pos: nat, p: nat)
    requires pos <= p < |s| && MatchAt(s, p).Some?
    ensures Covers(Scan(s, pos), p)
    decreases |s| - pos
  {
    var m := MatchAt(s, pos);
    if m.Some? {
      if m.value <= p {
        ScanCoversMatchStarts(s, m.value, p);
      }
      CoversCons(Span(pos, m.value), Scan(s, m.value), p);
    } else {
      ScanCoversMatchStarts(s, pos + 1, p);
    }
  }

  /** No match starts without an `@`, so the search passes over such text. */
  lemma {:induction false} ScanSkipsNonAt(s: string, pos: nat, j: nat)
    requires pos <= j <= |s| && forall k :: pos <= k < j ==> s[k] != '@'
    ensures Scan(s, pos) == Scan(s, j)
    decreases j - pos
  {
    if pos < j {
      ScanSkipsNonAt(s, pos + 1, j);
    }
  }

  /**
   * Every position from which the pattern matches lies inside a span:
   * nothing the pattern matches is skipped, so the spans are the leftmost
   * non-overlapping matches.
   */
  lemma ScanIsLeftmost(s: string, pos: nat, p: nat, e: nat)
    requires pos <= p && pos <= |s| && IsMatch(s, p, e)
    ensures exists i :: 0 <= i < |Scan(s, pos)| && Scan(s, pos)[i].start <= p < Scan(s, pos)[i].end
  {
    MatchAtComplete(s, p, e);
    ScanCoversMatchStarts(s, pos, p);
  }

  /** Each span is a match of the pattern, and the longest one from its start. */
  lemma ScanSpansAreLongestMatches(s: string, pos: nat, i: nat)
    requires pos <= |s| && i < |Scan(s, pos)|
    ensures IsMatch(s, Scan(s, pos)[i].start, Scan(s, pos)[i].end)
    ensures forall e': nat :: IsMatch(s, Scan(s, pos)[i].start, e') ==> e' <= Scan(s, pos)[i].end
  {
    var sp := Scan(s, pos)[i];
    MatchAtSound(s, sp.start);
    forall e': nat | IsMatch(s, sp.start, e') ensures e' <= sp.end {
      MatchAtComplete(s, sp.start, e');
    }
  }

  /** `re.FindAllString(s, -1)`: the matched substrings, left to right. */
  function FindAllString(s: string): (matches: seq<string>)
  {
    var spans := Scan(s, 0);
    seq(|spans|, i requires 0 <= i < |spans| => s[spans[i].start..spans[i].end])
  }

  /** The candidate emails: each match with its leading `@` removed. */
  function MentionedEmails(s: string): (emails: seq<string>)
  {
    var matches := FindAllString(s);
    seq(|matches|, i requires 0 <= i < |matches| => matches[i][1..])
  }

  /** The candidate emails line up with the matches, one `@` shorter each. */
  lemma MentionedEmailsStrip(s: string)
    ensures |MentionedEmails(s)| == |FindAllString(s)|
    ensures forall i :: 0 <= i < |FindAllString(s)| ==>
              |FindAllString(s)[i]| > 0 && FindAllString(s)[i][0] == '@'
              && MentionedEmails(s)[i] == FindAllString(s)[i][1..]
  {
  }

  /** A match moved to the start of its own string is still a match. */
  lemma IsMatchShift(s: string, p: nat, e: nat)
    requires IsMatch(s, p, e)
    ensures IsMention(s[p..e])
  {
    var q: nat, k: nat :| MentionSplit(s, p, q, k, e);
    var m := s[p..e];
    assert forall j :: 0 <= j < |m| ==> m[j] == s[p + j];
    assert MentionSplit(m, 0, q - p, k - p, e - p);
  }

  /**
   * Every extracted mention is a whole match of the pattern, begins with
   * `@`, and stripping that `@` gives the corresponding candidate email.
   */
  lemma FindAllStringMatches(s: string, i: nat)
    requires i < |FindAllString(s)|
    ensures IsMention(FindAllString(s)[i])
    ensures FindAllString(s)[i][0] == '@'
    ensures i < |MentionedEmails(s)| && MentionedEmails(s)[i] == FindAllString(s)[i][1..]
  {
    var sp := Scan(s, 0)[i];
    ScanSpansAreLongestMatches(s, 0, i);
    IsMatchShift(s, sp.start, sp.end);
  }

  /** A text without `@` mentions nobody. */
  lemma NoAtNoMentions(s: string)
    requires forall k :: 0 <= k < |s| ==> s[k] != '@'
    ensures FindAllString(s) == [] && MentionedEmails(s) == []
  {
    ScanSkipsNonAt(s, 0, |s|);
  }

  /** Every character of `w` is in the class. */
  ghost predicate AllInClass(w: string, cls: CharClass)
  {
    forall c :: c in w ==> InClass(c, cls)
  }

  /** The part of `s` from `lo` is `w`, whose characters are in the class. */
  lemma AllInPart(s: string, lo: nat, w: string, cls: CharClass)
    requires lo + |w| <= |s| && s[lo..lo + |w|] == w && AllInClass(w, cls)
    ensures AllIn(s, lo, lo + |w|, cls)
  {
    forall k | lo <= k < lo + |w| ensures InClass(s[k], cls) {
      assert s[k] == w[k - lo];
    }
  }

  /**
   * A text free of `@` followed by one well-formed mention, with a
   * non-empty local part and domain and a top-level domain of at least two
   * letters, yields exactly that mention.
   */
  lemma SingleTrailingMention(pre: string, local: string, domain: string, tld: string)
    requires '@' !in pre
    requires |local| > 0 && AllInClass(local, LocalPart)
    requires |domain| > 0 && AllInClass(domain, DomainPart)
    requires |tld| >= 2 && AllInClass(tld, Letters)
    ensures FindAllString(pre + "@" + (local + "@" + domain + "." + tld)) == ["@" + (local + "@" + domain + "." + tld)]
    ensures MentionedEmails(pre + "@" + (local + "@" + domain + "." + tld)) == [local + "@" + domain + "." + tld]
  {
    var m := local + "@" + domain + "." + tld;
    var s := pre + "@" + m;
    var p := |pre|;
    var q := p + 1 + |local|;
    var k := q + 1 + |domain|;
    assert |s| == k + 1 + |tld|;
    assert s[..p] == pre;
    assert s[p] == '@' && s[q] == '@' && s[k] == '.';
    assert s[p + 1..q] == local;
    assert s[q + 1..k] == domain;
    assert s[k + 1..] == tld;
    assert s[p..] == "@" + m;
    forall j | 0 <= j < p ensures s[j] != '@' {
      assert s[j] == pre[j];
    }
    ScanSkipsNonAt(s, 0, p);
    AllInPart(s, p + 1, local, LocalPart);
    AllInPart(s, q + 1, domain, DomainPart);
    AllInPart(s, k + 1, tld, Letters);
    assert MentionSplit(s, p, q, k, |s|);
    MatchAtComplete(s, p, |s|);
    assert Scan(s, 0) == [Span(p, |s|)];
    OneSpan(s, p);
    assert s[p + 1..] == m;
  }

  /** A search that finds one span, running to the end, extracts its text. */
  lemma OneSpan(s: string, p: nat)
    requires p < |s| && Scan(s, 0) == [Span(p, |s|)]
    ensures FindAllString(s) == [s[p..]] && MentionedEmails(s) == [s[p + 1..]]
  {
    var found := FindAllString(s);
    assert |found| == 1 && found[0] == s[p..];
    var emails := MentionedEmails(s);
    assert |emails| == 1 && emails[0] == s[p..][1..];
  }
}
