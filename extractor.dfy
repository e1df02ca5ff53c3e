/** The transaction extractor of mail.py: one `re.search` (with DOTALL) of
      Rs\.(\d+\.\d{2}) is successfully credited.*?reference number is (\d+)
    over the plain-text body of a bank alert. `\d` is read as an ASCII digit. */
module TransactionExtractor {
  import opened Wrappers

  const CURRENCY: string := "Rs."
  const CREDITED: string := " is successfully credited"
  const REF_PHRASE: string := "reference number is "

  /** What the extractor reports: the amount as its two digit groups
      (rupees and exactly two paise digits) and the reference (UTR). */
  datatype Transaction = Transaction(rupees: string, paise: string, utr: string)

  /** A successful search: where the match starts, where the reference
      phrase the lazy gap stopped at begins, and the captured groups. */
  datatype Match = Match(start: nat, refAt: nat, txn: Transaction)

  /** The fixed part of the pattern up to the lazy gap, once found at a start. */
  datatype Head = Head(rupees: string, paise: string, end: nat)

  predicate IsDigit(c: char) {
    '0' <= c <= '9'
  }

  predicate AllDigits(s: string) {
    forall p :: 0 <= p < |s| ==> IsDigit(s[p])
  }

  /** `lit` occurs in `text` at position `p`. */
  predicate LiteralAt(text: string, p: nat, lit: string) {
    p + |lit| <= |text| && forall d :: 0 <= d < |lit| ==> text[p + d] == lit[d]
  }

  /** Where the gap `.*?` may begin, for a match at `i` whose rupee group is `w`. */
  function HeadEnd(i: nat, w: string): nat {
    i + |CURRENCY| + |w| + 3 + |CREDITED|
  }

  /** The pattern up to the gap matches at `i` with groups `w` (`\d+`) and `f` (`\d{2}`). */
  ghost predicate HeadMatch(text: string, i: nat, w: string, f: string) {
    && LiteralAt(text, i, CURRENCY)
    && |w| >= 1 && AllDigits(w) && LiteralAt(text, i + |CURRENCY|, w)
    && LiteralAt(text, i + |CURRENCY| + |w|, ".")
    && |f| == 2 && AllDigits(f) && LiteralAt(text, i + |CURRENCY| + |w| + 1, f)
    && LiteralAt(text, i + |CURRENCY| + |w| + 3, CREDITED)
  }

  /** The rest of the pattern: the gap runs from `j` to `k`, where the
      reference phrase starts, and `u` is the reference group (`\d+`). */
  ghost predicate TailMatch(text: string, j: nat, k: nat, u: string) {
    && j <= k
    && LiteralAt(text, k, REF_PHRASE)
    && |u| >= 1 && AllDigits(u) && LiteralAt(text, k + |REF_PHRASE|, u)
  }

  /** Some way of matching the whole pattern starting at `i`, regardless of
      which way a backtracking matcher would try first. */
  ghost predicate MatchAt(text: string, i: nat, k: nat, w: string, f: string, u: string) {
    HeadMatch(text, i, w, f) && TailMatch(text, HeadEnd(i, w), k, u)
  }

  /** The reference phrase starts at `k` and a digit follows it: the only
      places where `reference number is (\d+)` can match. */
  predicate RefDigitAt(text: string, k: nat) {
    LiteralAt(text, k, REF_PHRASE) && k + |REF_PHRASE| < |text| && IsDigit(text[k + |REF_PHRASE|])
  }

  /** The length of the longest run of digits starting at `p` (what a greedy `\d+` takes). */
  function DigitRun(text: string, p: nat): (n: nat)
    requires p <= |text|
    ensures p + n <= |text|
    ensures forall q :: p <= q < p + n ==> IsDigit(text[q])
    ensures p + n == |text| || !IsDigit(text[p + n])
    decreases |text| - p
  {
    if p < |text| && IsDigit(text[p]) then 1 + DigitRun(text, p + 1) else 0
  }

  /** The fixed prefix of the pattern at `i`. Greedy `\d+` before a literal
      `.` can only stop at the end of the digit run, so there is no choice. */
  function HeadAt(text: string, i: nat): (r: Option<Head>)
    ensures r.Some? ==> HeadMatch(text, i, r.value.rupees, r.value.paise) && r.value.end == HeadEnd(i, r.value.rupees)
  {
    if !LiteralAt(text, i, CURRENCY) then None
    else
      var n := DigitRun(text, i + |CURRENCY|);
      var dot := i + |CURRENCY| + n;
      if n >= 1 && LiteralAt(text, dot, ".") && dot + 3 <= |text| && IsDigit(text[dot + 1]) && IsDigit(text[dot + 2])
         && LiteralAt(text, dot + 3, CREDITED)
      then
        HeadFound(text, i, n);
        Some(Head(text[i + |CURRENCY|..dot], text[dot + 1..dot + 3], dot + 3 + |CREDITED|))
      else None
  }

  /** The groups HeadAt cuts out of the text make the head match. */
  lemma HeadFound(text: string, i: nat, n: nat)
    requires LiteralAt(text, i, CURRENCY) && n >= 1 && i + |CURRENCY| + n <= |text|
    requires forall q :: i + |CURRENCY| <= q < i + |CURRENCY| + n ==> IsDigit(text[q])
    requires var dot := i + |CURRENCY| + n;
      && LiteralAt(text, dot, ".") && dot + 3 <= |text| && IsDigit(text[dot + 1]) && IsDigit(text[dot + 2])
      && LiteralAt(text, dot + 3, CREDITED)
    ensures var dot := i + |CURRENCY| + n;
      HeadMatch(text, i, text[i + |CURRENCY|..dot], text[dot + 1..dot + 3])
  {
    var p := i + |CURRENCY|;
    var dot := p + n;
    var w := text[p..dot];
    forall d | 0 <= d < |w| ensures text[p + d] == w[d] && IsDigit(w[d]) {
    }
    var f := text[dot + 1..dot + 3];
    assert f[0] == text[dot + 1] && f[1] == text[dot + 2];
  }

  /** The lazy gap `.*?`: the first position at or after `j` where the
      reference phrase followed by a digit starts. */
  function FindRef(text: string, j: nat): (r: Option<nat>)
    requires j <= |text|
    ensures r.Some? ==> j <= r.value && RefDigitAt(text, r.value)
    ensures r.Some? ==> forall q :: j <= q < r.value ==> !RefDigitAt(text, q)
    ensures r.None? ==> forall q :: j <= q ==> !RefDigitAt(text, q)
    decreases |text| - j
  {
    if RefDigitAt(text, j) then Some(j)
    else if j == |text| then None
    else FindRef(text, j + 1)
  }

  /** A match ends its reference group where the digit run ends. */
  ghost predicate UtrIsMaximal(text: string, m: Match) {
    var e := m.refAt + |REF_PHRASE| + |m.txn.utr|;
    e == |text| || (e < |text| && !IsDigit(text[e]))
  }

  /** `m` is a match of the pattern that starts at or after `i`, whose gap
      holds no earlier reference phrase followed by a digit (the lazy `.*?`),
      and whose reference is the whole digit run there (the greedy `\d+`). */
  ghost predicate FoundFrom(text: string, i: nat, m: Match) {
    && i <= m.start
    && MatchAt(text, m.start, m.refAt, m.txn.rupees, m.txn.paise, m.txn.utr)
    && UtrIsMaximal(text, m)
    && forall q :: HeadEnd(m.start, m.txn.rupees) <= q < m.refAt ==> !RefDigitAt(text, q)
  }

  /** The match the pattern makes when tried at start `i` alone, if any. */
  function MatchHere(text: string, i: nat): (r: Option<Match>)
    requires i <= |text|
    ensures r.Some? ==> r.value.start == i && FoundFrom(text, i, r.value)
  {
    match HeadAt(text, i)
    case None => None
    case Some(h) =>
      match FindRef(text, h.end)
      case None => None
      case Some(k) =>
        var p := k + |REF_PHRASE|;
        FoundIsMatch(text, i, h, k);
        Some(Match(i, k, Transaction(h.rupees, h.paise, text[p..p + DigitRun(text, p)])))
  }

  /** `re.search` from start position `i` on: the first start at which the
      pattern can match, with the shortest gap and the longest reference. */
  function SearchFrom(text: string, i: nat): (r: Option<Match>)
    requires i <= |text|
    ensures r.Some? ==> FoundFrom(text, i, r.value)
    decreases |text| - i
  {
    var here := MatchHere(text, i);
    if here.Some? || i == |text| then here
    else
      var later := SearchFrom(text, i + 1);
      FoundLater(text, i, later);
      later
  }

  /** A result of the search from `i + 1` is also one from `i`. */
  lemma FoundLater(text: string, i: nat, r: Option<Match>)
    requires r.Some? ==> FoundFrom(text, i + 1, r.value)
    ensures r.Some? ==> FoundFrom(text, i, r.value)
  {
  }

  /** `re.search(PATTERN, text, re.DOTALL)`. */
  function Search(text: string): (r: Option<Match>)
    ensures r.Some? ==> FoundFrom(text, 0, r.value)
  {
    SearchFrom(text, 0)
  }

  /** `extract_transaction_info(text)`: the groups of the match, or None. */
  function ExtractTransactionInfo(text: string): (r: Option<Transaction>)
    ensures r.Some? ==> |r.value.rupees| >= 1 && AllDigits(r.value.rupees)
    ensures r.Some? ==> |r.value.paise| == 2 && AllDigits(r.value.paise)
    ensures r.Some? ==> |r.value.utr| >= 1 && AllDigits(r.value.utr)
  {
    match Search(text)
    case None => None
    case Some(m) => Some(m.txn)
  }

  /** The value of a string of ASCII digits. */
  function DigitsValue(s: string): nat
    requires AllDigits(s)
  {
    if s == [] then 0 else 10 * DigitsValue(s[..|s| - 1]) + (s[|s| - 1] as int - '0' as int)
  }

  /** The amount of a transaction exactly, in paise. */
  function AmountInPaise(t: Transaction): nat
    requires AllDigits(t.rupees) && AllDigits(t.paise)
  {
    100 * DigitsValue(t.rupees) + DigitsValue(t.paise)
  }

  // ---------------------------------------------------------------------
  // The search is deterministic up to the gap, and finds the first match.

  /** A digit run of length `n` not followed by a digit is the greedy run. */
  lemma DigitRunExact(text: string, p: nat, n: nat)
    requires p + n <= |text|
    requires forall q :: p <= q < p + n ==> IsDigit(text[q])
    requires p + n == |text| || !IsDigit(text[p + n])
    ensures DigitRun(text, p) == n
  {
  }

  /** Whatever groups make the prefix match at `i`, HeadAt finds those. */
  lemma HeadAtComplete(text: string, i: nat, w: string, f: string)
    requires HeadMatch(text, i, w, f)
    ensures HeadAt(text, i) == Some(Head(w, f, HeadEnd(i, w)))
  {
    var p := i + |CURRENCY|;
    DigitsAt(text, p, w);
    assert text[p + |w| + 0] == "."[0];
    DigitRunExact(text, p, |w|);
    assert text[p..p + |w|] == w by {
      forall d | 0 <= d < |w| ensures text[p..p + |w|][d] == w[d] {
        assert text[p + d] == w[d];
      }
    }
    assert text[p + |w| + 1 + 0] == f[0] && text[p + |w| + 1 + 1] == f[1];
    assert text[p + |w| + 1..p + |w| + 3] == f;
  }

  /** The pieces SearchFrom puts together form a match whose reference is
      the whole digit run. */
  lemma FoundIsMatch(text: string, i: nat, h: Head, k: nat)
    requires HeadMatch(text, i, h.rupees, h.paise) && h.end == HeadEnd(i, h.rupees)
    requires h.end <= k && RefDigitAt(text, k) && forall q :: h.end <= q < k ==> !RefDigitAt(text, q)
    ensures var p := k + |REF_PHRASE|;
      FoundFrom(text, i, Match(i, k, Transaction(h.rupees, h.paise, text[p..p + DigitRun(text, p)])))
  {
    var p := k + |REF_PHRASE|;
    var n := DigitRun(text, p);
    assert AllDigits(text[p..p + n]);
  }

  /** At the start of a match, the head is found with the same amount groups
      and the gap closes no later than in that match. */
  lemma FirstAtStart(text: string, i: nat, k: nat, w: string, f: string, u: string)
    requires MatchAt(text, i, k, w, f, u)
    ensures HeadAt(text, i) == Some(Head(w, f, HeadEnd(i, w)))
    ensures FindRef(text, HeadEnd(i, w)).Some? && FindRef(text, HeadEnd(i, w)).value <= k
  {
    var p := k + |REF_PHRASE|;
    assert IsDigit(text[p]) by { assert text[p + 0] == u[0]; }
    assert RefDigitAt(text, k);
    HeadAtComplete(text, i, w, f);
  }

  /** A digit string at `p` is a prefix of any digit string at `p` that is
      not followed by a further digit. */
  lemma PrefixOfMaximal(text: string, p: nat, u: string, v: string)
    requires AllDigits(u) && LiteralAt(text, p, u) && LiteralAt(text, p, v)
    requires p + |v| == |text| || !IsDigit(text[p + |v|])
    ensures u <= v
  {
    DigitsAt(text, p, u);
    assert |u| <= |v|;
    assert v[..|u|] == u by {
      forall d | 0 <= d < |u| ensures v[..|u|][d] == u[d] {
        assert text[p + d] == u[d] && text[p + d] == v[d];
      }
    }
  }

  /** `m` comes no later in the matcher's order than the match at start `i`
      with gap end `k` and groups `w`, `f`, `u`: it starts earlier, or at `i`
      with the same amount groups and a shorter gap, or with the same gap
      and `u` a prefix of its reference. */
  ghost predicate Precedes(m: Match, i: nat, k: nat, w: string, f: string, u: string) {
    || m.start < i
    || (m.start == i && m.txn.rupees == w && m.txn.paise == f && m.refAt < k)
    || (m.start == i && m.txn.rupees == w && m.txn.paise == f && m.refAt == k && u <= m.txn.utr)
  }

  /** Every way the pattern can match is either the one the search reports
      or comes after it in the matcher's order. */
  lemma SearchFromFirst(text: string, from: nat, i: nat, k: nat, w: string, f: string, u: string)
    requires from <= i && MatchAt(text, i, k, w, f, u)
    ensures SearchFrom(text, from).Some? && Precedes(SearchFrom(text, from).value, i, k, w, f, u)
  {
    SearchFirstAtStart(text, i, k, w, f, u);
    SearchStepsUpTo(text, i);
    ReachFirst(Searcher(text), from, i);
  }

  /** The search from each position, as a function of the position. */
  ghost function Searcher(text: string): nat -> Option<Match> {
    (x: nat) => if x <= |text| then SearchFrom(text, x) else None
  }

  /** Each search before `i` takes one step. */
  lemma SearchStepsUpTo(text: string, i: nat)
    requires i <= |text|
    ensures forall x :: 0 <= x < i ==> StepsOn(Searcher(text), x)
  {
    forall x | 0 <= x < i ensures StepsOn(Searcher(text), x) {
      SearchStep(text, x);
    }
  }

  /** A search from `x` either matches at `x` or gives what the search from
      `x + 1` gives. */
  ghost predicate StepsOn(g: nat -> Option<Match>, x: nat) {
    (g(x).Some? && g(x).value.start == x) || g(x) == g(x + 1)
  }

  /** One step of the search: it matches where it stands or moves on. */
  lemma SearchStep(text: string, x: nat)
    requires x < |text|
    ensures StepsOn(Searcher(text), x)
  {
    assert Searcher(text)(x) == SearchFrom(text, x) && Searcher(text)(x + 1) == SearchFrom(text, x + 1);
    if MatchHere(text, x).Some? {
      SearchFromHere(text, x);
    } else {
      SearchFromNext(text, x);
    }
  }

  /** Stepping back from a result at `i`, a search either keeps that result or
      finds one that starts before `i`. */
  lemma {:induction false} ReachFirst(g: nat -> Option<Match>, from: nat, i: nat)
    requires from <= i && g(i).Some?
    requires forall x :: from <= x < i ==> StepsOn(g, x)
    ensures g(from).Some? && (g(from).value.start < i || g(from) == g(i))
    decreases i - from
  {
    if from < i {
      assert StepsOn(g, from);
      ReachFirst(g, from + 1, i);
    }
  }

  /** At the start of a match, the search reports that match or one before it. */
  lemma SearchFirstAtStart(text: string, i: nat, k: nat, w: string, f: string, u: string)
    requires MatchAt(text, i, k, w, f, u)
    ensures SearchFrom(text, i).Some? && Precedes(SearchFrom(text, i).value, i, k, w, f, u)
  {
    FirstAtStart(text, i, k, w, f, u);
    var h := Head(w, f, HeadEnd(i, w));
    MatchHereAt(text, i, h, FindRef(text, h.end).value);
    SearchFromHere(text, i);
    HereComesFirst(text, SearchFrom(text, i).value, i, k, w, f, u);
  }

  /** The match tried at `i`, with the amount groups of another match there
      and a gap no longer than its gap, comes no later than that match. */
  lemma HereComesFirst(text: string, m: Match, i: nat, k: nat, w: string, f: string, u: string)
    requires MatchAt(text, i, k, w, f, u) && FoundFrom(text, i, m)
    requires m.start == i && m.txn.rupees == w && m.txn.paise == f && m.refAt <= k
    ensures Precedes(m, i, k, w, f, u)
  {
    if m.refAt == k {
      PrefixOfMaximal(text, k + |REF_PHRASE|, u, m.txn.utr);
    }
  }

  /** A match at the start itself is what the search from there reports. */
  lemma SearchFromHere(text: string, i: nat)
    requires i <= |text| && MatchHere(text, i).Some?
    ensures SearchFrom(text, i) == MatchHere(text, i)
  {
  }

  /** With no match at the start itself, the search goes on from the next position. */
  lemma SearchFromNext(text: string, i: nat)
    requires i < |text| && MatchHere(text, i).None?
    ensures SearchFrom(text, i) == SearchFrom(text, i + 1)
  {
  }

  /** Where the head matches and the gap closes, trying start `i` gives a
      match with those amount groups and that gap. */
  lemma MatchHereAt(text: string, i: nat, h: Head, k: nat)
    requires i <= |text| && HeadAt(text, i) == Some(h) && h.end <= |text| && FindRef(text, h.end) == Some(k)
    ensures MatchHere(text, i).Some?
    ensures var m := MatchHere(text, i).value;
      m.start == i && m.refAt == k && m.txn.rupees == h.rupees && m.txn.paise == h.paise
  {
  }

  /** The extractor returns a transaction exactly when the text contains the
      pattern in some way (`Rs.` amount, the credited phrase, any text, the
      reference phrase and digits). */
  lemma ExtractSomeIffMatch(text: string)
    ensures ExtractTransactionInfo(text).Some? <==> exists i, k, w, f, u :: MatchAt(text, i, k, w, f, u)
  {
    if exists i, k, w, f, u :: MatchAt(text, i, k, w, f, u) {
      var i, k, w, f, u :| MatchAt(text, i, k, w, f, u);
      SearchFromFirst(text, 0, i, k, w, f, u);
    }
  }

  /** `re.search` returns exactly the match that starts leftmost, closes its
      gap at the first reference phrase followed by a digit, and takes the
      whole digit run as its reference. */
  lemma SearchIsLeftmost(text: string, m: Match)
    requires FoundFrom(text, 0, m)
    requires forall i: nat, k: nat, w: string, f: string, u: string :: i < m.start ==> !MatchAt(text, i, k, w, f, u)
    ensures Search(text) == Some(m)
  {
    SearchFromFirst(text, 0, m.start, m.refAt, m.txn.rupees, m.txn.paise, m.txn.utr);
    SameMatch(text, SearchFrom(text, 0).value, m);
  }

  /** A found match that comes no later than another found match with no
      match starting before it is that match. */
  lemma SameMatch(text: string, r: Match, m: Match)
    requires FoundFrom(text, 0, r) && FoundFrom(text, 0, m)
    requires Precedes(r, m.start, m.refAt, m.txn.rupees, m.txn.paise, m.txn.utr)
    requires forall i: nat, k: nat, w: string, f: string, u: string :: i < m.start ==> !MatchAt(text, i, k, w, f, u)
    ensures r == m
  {
    assert MatchAt(text, r.start, r.refAt, r.txn.rupees, r.txn.paise, r.txn.utr);
    assert r.start == m.start && r.txn.rupees == m.txn.rupees && r.txn.paise == m.txn.paise;
    var p := r.refAt + |REF_PHRASE|;
    DigitInside(text, p, r.txn.utr, 0);
    assert RefDigitAt(text, r.refAt);
    assert r.refAt == m.refAt;
    MaximalExtension(text, p, m.txn.utr, r.txn.utr);
  }

  /** "Rs." cannot overlap a later copy of itself. */
  lemma CurrencyNoOverlap(text: string, q: nat, i: nat)
    requires LiteralAt(text, i, CURRENCY) && i < q + |CURRENCY| && q < i
    ensures !LiteralAt(text, q, CURRENCY)
  {
    var d := i - q;
    assert text[i + 0] == CURRENCY[0] != CURRENCY[d];
  }

  /** The reference phrase cannot overlap a later copy of itself. */
  lemma RefPhraseNoOverlap(text: string, q: nat, k: nat)
    requires LiteralAt(text, k, REF_PHRASE) && k < q + |REF_PHRASE| && q < k
    ensures !LiteralAt(text, q, REF_PHRASE)
  {
    var d := k - q;
    // the first position where the two copies would disagree
    var t := if d == 4 then 6 else if d == 15 then 16 else d;
    assert text[k + (t - d)] == REF_PHRASE[t - d] != REF_PHRASE[t];
  }

  /** Text appended after a copy leaves that copy in place. */
  lemma LiteralExtends(s: string, t: string, p: nat, x: string)
    requires LiteralAt(s, p, x)
    ensures LiteralAt(s + t, p, x)
  {
    assert (s + t)[p..p + |x|] == s[p..p + |x|];
  }

  /** A copy of `lit` lying within a piece `mid` of the text is a copy in `mid`. */
  lemma LiteralInside(text: string, j: nat, mid: string, q: nat, lit: string)
    requires LiteralAt(text, j, mid) && j <= q && q + |lit| <= j + |mid|
    ensures LiteralAt(text, q, lit) ==> LiteralAt(mid, q - j, lit)
  {
    if LiteralAt(text, q, lit) {
      forall e | 0 <= e < |lit| ensures mid[q - j + e] == lit[e] {
        assert text[j + (q - j + e)] == mid[q - j + e];
        assert text[q + e] == lit[e];
      }
    }
  }

  /** No copy of `lit` begins anywhere inside `s`. */
  predicate Absent(s: string, lit: string) {
    forall q :: 0 <= q < |s| ==> !LiteralAt(s, q, lit)
  }

  /** The alert text built from the template: whatever precedes the amount,
      the amount, the credited phrase, the filler, the reference phrase, the
      reference and whatever follows. */
  function Alert(pre: string, rupees: string, paise: string, mid: string, utr: string, post: string): string {
    pre + CURRENCY + rupees + "." + paise + CREDITED + (mid + REF_PHRASE + utr) + post
  }

  /** A digit string found in the text puts a digit at each of its positions. */
  lemma DigitsAt(text: string, p: nat, v: string)
    requires AllDigits(v) && LiteralAt(text, p, v)
    ensures forall x :: p <= x < p + |v| ==> IsDigit(text[x])
  {
    forall x | p <= x < p + |v| ensures IsDigit(text[x]) {
      assert text[p + (x - p)] == v[x - p];
    }
  }

  /** When `text` starts with `pre` and then "Rs.", and `pre` holds no "Rs.",
      no "Rs." starts before the one after `pre`. */
  lemma FirstCurrency(text: string, pre: string)
    requires LiteralAt(text, 0, pre) && LiteralAt(text, |pre|, CURRENCY) && Absent(pre, CURRENCY)
    ensures forall q :: 0 <= q < |pre| ==> !LiteralAt(text, q, CURRENCY)
  {
    forall q | 0 <= q < |pre| ensures !LiteralAt(text, q, CURRENCY) {
      if q + |CURRENCY| <= |pre| {
        LiteralInside(text, 0, pre, q, CURRENCY);
        assert !LiteralAt(pre, q, CURRENCY);
      } else {
        CurrencyNoOverlap(text, q, |pre|);
      }
    }
  }

  /** When `mid` holding no reference phrase stands at `j` and a reference
      phrase follows it, no reference phrase starts in between. */
  lemma FirstRefPhrase(text: string, j: nat, mid: string)
    requires LiteralAt(text, j, mid) && LiteralAt(text, j + |mid|, REF_PHRASE) && Absent(mid, REF_PHRASE)
    ensures forall q :: j <= q < j + |mid| ==> !LiteralAt(text, q, REF_PHRASE)
  {
    var k := j + |mid|;
    forall q | j <= q < k ensures !LiteralAt(text, q, REF_PHRASE) {
      if q + |REF_PHRASE| <= k {
        LiteralInside(text, j, mid, q, REF_PHRASE);
        assert !LiteralAt(mid, q - j, REF_PHRASE);
      } else {
        RefPhraseNoOverlap(text, q, k);
      }
    }
  }

  /** Where the pieces of an alert built from the template lie in `text`. */
  ghost predicate Layout(text: string, pre: string, rupees: string, paise: string, mid: string, utr: string, post: string) {
    var j := HeadEnd(|pre|, rupees);
    var e := j + |mid| + |REF_PHRASE| + |utr|;
    && MatchAt(text, |pre|, j + |mid|, rupees, paise, utr)
    && LiteralAt(text, 0, pre) && LiteralAt(text, j, mid)
    && |text| == e + |post| && (post != [] ==> text[e] == post[0])
  }

  /** The pieces of an alert built from the template lie where they should. */
  lemma TemplateLayout(pre: string, rupees: string, paise: string, mid: string, utr: string, post: string)
    requires |rupees| >= 1 && AllDigits(rupees) && |paise| == 2 && AllDigits(paise)
    requires |utr| >= 1 && AllDigits(utr)
    ensures Layout(Alert(pre, rupees, paise, mid, utr, post), pre, rupees, paise, mid, utr, post)
  {
    var head := pre + CURRENCY + rupees + "." + paise + CREDITED;
    var body := head + (mid + REF_PHRASE + utr);
    assert body + post == Alert(pre, rupees, paise, mid, utr, post);
    TemplateBody(pre, rupees, paise, mid, utr);
    PiecesExtend(body, post, pre, rupees, paise, mid, utr, |head|);
    LayoutFromPieces(body + post, pre, rupees, paise, mid, utr, post, |head|, |body|);
  }

  /** What the template's pieces before `post` give. */
  ghost predicate Pieces(text: string, pre: string, rupees: string, paise: string, mid: string, utr: string, j: nat) {
    && HeadMatch(text, |pre|, rupees, paise) && TailMatch(text, j, j + |mid|, utr)
    && LiteralAt(text, 0, pre) && LiteralAt(text, j, mid)
  }

  /** The template up to and including the reference. */
  lemma TemplateBody(pre: string, rupees: string, paise: string, mid: string, utr: string)
    requires |rupees| >= 1 && AllDigits(rupees) && |paise| == 2 && AllDigits(paise)
    requires |utr| >= 1 && AllDigits(utr)
    ensures var head := pre + CURRENCY + rupees + "." + paise + CREDITED;
      var body := head + (mid + REF_PHRASE + utr);
      Pieces(body, pre, rupees, paise, mid, utr, |head|) && |head| == HeadEnd(|pre|, rupees)
  {
    var head := pre + CURRENCY + rupees + "." + paise + CREDITED;
    var rest := mid + REF_PHRASE + utr;
    TemplateHead(pre, rupees, paise);
    TemplateGap(head, mid, utr);
    HeadMatchExtends(head, rest, |pre|, rupees, paise);
    LiteralExtends(head, rest, 0, pre);
  }

  /** Appending `post` keeps the pieces where they are. */
  lemma PiecesExtend(body: string, post: string, pre: string, rupees: string, paise: string, mid: string, utr: string, j: nat)
    requires Pieces(body, pre, rupees, paise, mid, utr, j)
    ensures Pieces(body + post, pre, rupees, paise, mid, utr, j)
    ensures post != [] ==> (body + post)[|body|] == post[0]
  {
    HeadMatchExtends(body, post, |pre|, rupees, paise);
    TailMatchExtends(body, post, j, j + |mid|, utr);
    LiteralExtends(body, post, j, mid);
    LiteralExtends(body, post, 0, pre);
  }

  /** The facts about the pieces, stated at their positions, make up the layout. */
  lemma LayoutFromPieces(text: string, pre: string, rupees: string, paise: string, mid: string, utr: string, post: string, j: nat, e: nat)
    requires j == HeadEnd(|pre|, rupees) && e == j + |mid| + |REF_PHRASE| + |utr| && |text| == e + |post|
    requires HeadMatch(text, |pre|, rupees, paise) && TailMatch(text, j, j + |mid|, utr)
    requires LiteralAt(text, 0, pre) && LiteralAt(text, j, mid)
    requires post != [] ==> text[e] == post[0]
    ensures Layout(text, pre, rupees, paise, mid, utr, post)
  {
  }

  /** The head of the template matches right after `pre`, and `pre` stands at 0. */
  lemma TemplateHead(pre: string, rupees: string, paise: string)
    requires |rupees| >= 1 && AllDigits(rupees) && |paise| == 2 && AllDigits(paise)
    ensures var head := pre + CURRENCY + rupees + "." + paise + CREDITED;
      HeadMatch(head, |pre|, rupees, paise) && |head| == HeadEnd(|pre|, rupees) && LiteralAt(head, 0, pre)
  {
  }

  /** After any head, the filler and the reference phrase with its digits
      form the tail of a match, and the filler lies where the gap begins. */
  lemma TemplateGap(head: string, mid: string, utr: string)
    requires |utr| >= 1 && AllDigits(utr)
    ensures var text := head + (mid + REF_PHRASE + utr);
      TailMatch(text, |head|, |head| + |mid|, utr) && LiteralAt(text, |head|, mid)
  {
  }

  /** Text appended after a head match leaves it a head match. */
  lemma HeadMatchExtends(s: string, t: string, i: nat, w: string, f: string)
    requires HeadMatch(s, i, w, f)
    ensures HeadMatch(s + t, i, w, f)
  {
    LiteralExtends(s, t, i, CURRENCY);
    LiteralExtends(s, t, i + |CURRENCY|, w);
    LiteralExtends(s, t, i + |CURRENCY| + |w|, ".");
    LiteralExtends(s, t, i + |CURRENCY| + |w| + 1, f);
    LiteralExtends(s, t, i + |CURRENCY| + |w| + 3, CREDITED);
  }

  /** Text appended after a tail match leaves it a tail match. */
  lemma TailMatchExtends(s: string, t: string, j: nat, k: nat, u: string)
    requires TailMatch(s, j, k, u)
    ensures TailMatch(s + t, j, k, u)
  {
    LiteralExtends(s, t, k, REF_PHRASE);
    LiteralExtends(s, t, k + |REF_PHRASE|, u);
  }

  /** A match with no "Rs." before its start, no reference phrase inside its
      gap and no digit right after its reference is what the extractor
      reports. */
  lemma ExtractUniqueMatch(text: string, i: nat, k: nat, w: string, f: string, u: string)
    requires MatchAt(text, i, k, w, f, u)
    requires forall q :: 0 <= q < i ==> !LiteralAt(text, q, CURRENCY)
    requires forall q :: HeadEnd(i, w) <= q < k ==> !LiteralAt(text, q, REF_PHRASE)
    requires var e := k + |REF_PHRASE| + |u|; e == |text| || !IsDigit(text[e])
    ensures ExtractTransactionInfo(text) == Some(Transaction(w, f, u))
  {
    SearchFromFirst(text, 0, i, k, w, f, u);
    OnlyCandidate(text, SearchFrom(text, 0).value, i, k, w, f, u);
  }

  /** Under the same conditions, a match that comes no later than the one
      at `i` is that match. */
  lemma OnlyCandidate(text: string, m: Match, i: nat, k: nat, w: string, f: string, u: string)
    requires FoundFrom(text, 0, m) && Precedes(m, i, k, w, f, u)
    requires forall q :: 0 <= q < i ==> !LiteralAt(text, q, CURRENCY)
    requires forall q :: HeadEnd(i, w) <= q < k ==> !LiteralAt(text, q, REF_PHRASE)
    requires var e := k + |REF_PHRASE| + |u|; e == |text| || !IsDigit(text[e])
    ensures m.start == i && m.refAt == k && m.txn == Transaction(w, f, u)
  {
    assert LiteralAt(text, m.start, CURRENCY);
    assert m.start == i && m.txn.rupees == w && m.txn.paise == f;
    assert LiteralAt(text, m.refAt, REF_PHRASE) && HeadEnd(i, w) <= m.refAt;
    assert m.refAt == k && u <= m.txn.utr;
    MaximalExtension(text, k + |REF_PHRASE|, u, m.txn.utr);
  }

  /** A digit string at `p` that extends `u`, where `u` is followed by no
      digit, is `u` itself. */
  lemma MaximalExtension(text: string, p: nat, u: string, v: string)
    requires AllDigits(v) && LiteralAt(text, p, v) && u <= v
    requires p + |u| == |text| || !IsDigit(text[p + |u|])
    ensures v == u
  {
    if |u| < |v| {
      DigitInside(text, p, v, |u|);
      assert false;
    }
    assert v[..|u|] == v;
  }

  /** Each position of a digit string found in the text holds a digit. */
  lemma DigitInside(text: string, p: nat, v: string, n: nat)
    requires AllDigits(v) && LiteralAt(text, p, v) && n < |v|
    ensures p + n < |text| && IsDigit(text[p + n])
  {
    assert text[p + n] == v[n];
  }

  /** An amount with two decimals and a reference embedded in the template
      come back exactly, provided nothing before the amount looks like "Rs.",
      the filler holds no reference phrase and the reference is not
      followed by a further digit. */
  lemma ExtractFromTemplate(pre: string, rupees: string, paise: string, mid: string, utr: string, post: string)
    requires Absent(pre, CURRENCY) && Absent(mid, REF_PHRASE)
    requires |rupees| >= 1 && AllDigits(rupees) && |paise| == 2 && AllDigits(paise)
    requires |utr| >= 1 && AllDigits(utr)
    requires post == [] || !IsDigit(post[0])
    ensures ExtractTransactionInfo(Alert(pre, rupees, paise, mid, utr, post)) == Some(Transaction(rupees, paise, utr))
  {
    TemplateLayout(pre, rupees, paise, mid, utr, post);
    ExtractFromLayout(Alert(pre, rupees, paise, mid, utr, post), pre, rupees, paise, mid, utr, post);
  }

  lemma ExtractFromLayout(text: string, pre: string, rupees: string, paise: string, mid: string, utr: string, post: string)
    requires Layout(text, pre, rupees, paise, mid, utr, post)
    requires Absent(pre, CURRENCY) && Absent(mid, REF_PHRASE)
    requires post == [] || !IsDigit(post[0])
    ensures ExtractTransactionInfo(text) == Some(Transaction(rupees, paise, utr))
  {
    var j := HeadEnd(|pre|, rupees);
    FirstCurrency(text, pre);
    FirstRefPhrase(text, j, mid);
    ExtractUniqueMatch(text, |pre|, j + |mid|, rupees, paise, utr);
  }

  /** A credit of Rs.500.00 with reference 123456 is reported as 50000 paise
      and reference "123456". */
  lemma CreditOfFiveHundred()
    ensures var r := ExtractTransactionInfo(Alert("", "500", "00", " to a/c **1234. ", "123456", "."));
      r == Some(Transaction("500", "00", "123456")) && AmountInPaise(r.value) == 50000
  {
    ExtractFromTemplate("", "500", "00", " to a/c **1234. ", "123456", ".");
    FiveHundredInPaise();
  }

  /** Rs.500.00 is 50000 paise. */
  lemma FiveHundredInPaise()
    ensures AmountInPaise(Transaction("500", "00", "123456")) == 50000
  {
    assert "500"[..2] == "50" && "50"[..1] == "5" && "5"[..0] == "";
    assert DigitsValue("500") == 500;
    assert "00"[..1] == "0" && "0"[..0] == "";
    assert DigitsValue("00") == 0;
  }
}
