/** The JSON salvaging step of services/geminiService.ts: find the first `{`
    in a free-text reply, count braces from there until the count first
    returns to zero, and hand that span to the JSON parser. The parser itself
    is a parameter; counting does not know about JSON string literals, so a
    brace inside a quoted string counts like any other. */
module JsonExtract {
  import opened Wrappers
  import Text

  /** How one character moves the running brace count. */
  function Delta(c: char): int {
    if c == '{' then 1 else if c == '}' then -1 else 0
  }

  /** Opening braces minus closing braces in `t`, counted left to right. */
  function BraceCount(t: string): int
    decreases |t|
  {
    if |t| == 0 then 0 else BraceCount(t[..|t| - 1]) + Delta(t[|t| - 1])
  }

  /** The running count after the scan starting at `start` has consumed the
      character at index `k`. */
  function CountThrough(s: string, start: nat, k: nat): int
    requires start <= k < |s|
  {
    BraceCount(s[start..k + 1])
  }

  /** A span of the reply, both ends inclusive (`endIndex` is the index of
      the last character taken). */
  datatype Span = Span(start: nat, end: nat)

  /** `sp` is the span the extractor settles on in `s`: it starts at the
      first `{` of `s` and ends at the first index where the running count
      is zero again. */
  predicate IsExtractedSpan(s: string, sp: Span) {
    && sp.start <= sp.end < |s|
    && s[sp.start] == '{'
    && '{' !in s[..sp.start]
    && CountThrough(s, sp.start, sp.end) == 0
    && forall k :: sp.start <= k < sp.end ==> CountThrough(s, sp.start, k) != 0
  }

  /** The running count moves by exactly one character's `Delta` per step. */
  lemma CountStep(s: string, start: nat, k: nat)
    requires start <= k < |s|
    ensures CountThrough(s, start, k) == BraceCount(s[start..k]) + Delta(s[k])
  {
    assert s[start..k + 1][..k - start] == s[start..k];
  }

  /** The loop of `extractJSON` from index `i` on, with `count` the running
      count of `s[start..i]`: the first later index where the count is zero,
      or `None` when the reply ends first. */
  function ScanFrom(s: string, start: nat, i: nat, count: int): (r: Option<nat>)
    requires start <= i <= |s|
    requires count == BraceCount(s[start..i])
    ensures r.Some? ==> i <= r.value < |s| && CountThrough(s, start, r.value) == 0
    ensures r.Some? ==> forall k :: i <= k < r.value ==> CountThrough(s, start, k) != 0
    ensures r.None? ==> forall k :: i <= k < |s| ==> CountThrough(s, start, k) != 0
    decreases |s| - i
  {
    if i == |s| then None
    else
      CountStep(s, start, i);
      var next := count + Delta(s[i]);
      if next == 0 then Some(i) else ScanFrom(s, start, i + 1, next)
  }

  /** Two spans the extractor could settle on are the same span. */
  lemma ExtractedSpanUnique(s: string, a: Span, b: Span)
    requires IsExtractedSpan(s, a) && IsExtractedSpan(s, b)
    ensures a == b
  {
  }

  /** The brace scan of `extractJSON`: the span it yields is exactly the
      extracted span of `s`, and it yields nothing when `s` has none. */
  function FindSpan(s: string): (r: Option<Span>)
    ensures forall sp :: r == Some(sp) <==> IsExtractedSpan(s, sp)
  {
    match Text.IndexOf(s, '{')
    case None => None
    case Some(st) =>
      match ScanFrom(s, st, st, 0)
      case None =>
        assert forall sp :: !IsExtractedSpan(s, sp) by {
          forall sp | IsExtractedSpan(s, sp) ensures false {
            ExtractedSpanUnique(s, sp, Span(st, sp.end));
          }
        }
        None
      case Some(e) =>
        assert IsExtractedSpan(s, Span(st, e));
        assert forall sp :: IsExtractedSpan(s, sp) ==> sp == Span(st, e) by {
          forall sp | IsExtractedSpan(s, sp) ensures sp == Span(st, e) {
            ExtractedSpanUnique(s, sp, Span(st, e));
          }
        }
        Some(Span(st, e))
  }

  /** `extractJSON(text)`: `None` (JavaScript `null`) for a missing or empty
      reply, a reply without a balanced span, or a span the parser rejects;
      otherwise whatever the parser makes of the extracted span. */
  function ExtractJson<T>(text: Option<string>, parse: string -> Option<T>): (r: Option<T>)
    ensures text.None? ==> r.None?
    ensures text.Some? && '{' !in text.value ==> r.None?
    ensures r.Some? ==> text.Some? && exists sp :: IsExtractedSpan(text.value, sp)
    ensures forall sp :: text.Some? && IsExtractedSpan(text.value, sp) ==>
              r == parse(text.value[sp.start..sp.end + 1])
  {
    if text.None? || text.value == "" then None
    else
      match FindSpan(text.value)
      case None => None
      case Some(sp) => parse(text.value[sp.start..sp.end + 1])
  }

  // ------------------------------------------------------------ properties

  /** Up to the end of an extracted span the running count stays positive. */
  lemma {:induction false} CountPositiveBefore(s: string, sp: Span, k: nat)
    requires IsExtractedSpan(s, sp)
    requires sp.start <= k < sp.end
    ensures CountThrough(s, sp.start, k) > 0
    decreases k
  {
    CountStep(s, sp.start, k);
    if k == sp.start {
      assert s[sp.start..k] == [];
    } else {
      CountPositiveBefore(s, sp, k - 1);
      assert s[sp.start..k] == s[sp.start..(k - 1) + 1];
    }
  }

  /** An extracted span is at least `{}` long, ends with `}`, and no proper
      prefix of it balances: every prefix has more `{` than `}`. */
  lemma ExtractedSpanShape(s: string, sp: Span)
    requires IsExtractedSpan(s, sp)
    ensures sp.start < sp.end && s[sp.end] == '}'
    ensures forall k :: sp.start <= k < sp.end ==> CountThrough(s, sp.start, k) > 0
  {
    CountStep(s, sp.start, sp.start);
    assert s[sp.start..sp.start] == [];
    assert sp.start != sp.end;
    CountStep(s, sp.start, sp.end);
    CountPositiveBefore(s, sp, sp.end - 1);
    assert s[sp.start..sp.end] == s[sp.start..(sp.end - 1) + 1];
    forall k | sp.start <= k < sp.end
      ensures CountThrough(s, sp.start, k) > 0
    {
      CountPositiveBefore(s, sp, k);
    }
  }

  /** `o` is an object whose braces first balance at its last character,
      as a well-formed JSON object without braces in its strings is. */
  predicate IsBraceBalancedObject(o: string) {
    |o| > 0 && IsExtractedSpan(o, Span(0, |o| - 1))
  }

  /** Counting inside `p + o + q` from the start of `o` is counting in `o`. */
  lemma CountInEmbedding(p: string, o: string, q: string, k: nat)
    requires |p| <= k < |p| + |o|
    ensures CountThrough(p + o + q, |p|, k) == CountThrough(o, 0, k - |p|)
  {
    assert (p + o + q)[|p|..k + 1] == o[0..k - |p| + 1];
  }

  /** A reply that wraps a brace-balanced object in prose that has no `{`
      before it yields exactly that object, whatever follows it. */
  lemma EmbeddedObjectExtracted<T>(p: string, o: string, q: string, parse: string -> Option<T>)
    requires '{' !in p
    requires IsBraceBalancedObject(o)
    ensures FindSpan(p + o + q) == Some(Span(|p|, |p| + |o| - 1))
    ensures ExtractJson(Some(p + o + q), parse) == parse(o)
  {
    var s := p + o + q;
    var sp := Span(|p|, |p| + |o| - 1);
    assert s[..|p|] == p;
    assert s[|p|] == o[0];
    CountInEmbedding(p, o, q, sp.end);
    forall k | sp.start <= k < sp.end
      ensures CountThrough(s, sp.start, k) != 0
    {
      CountInEmbedding(p, o, q, k);
    }
    assert IsExtractedSpan(s, sp);
    assert s[sp.start..sp.end + 1] == o;
  }

  /** Counting inside `p + o[..m]` from the start of `o` is counting in `o`. */
  lemma CountInTruncation(p: string, o: string, m: nat, k: nat)
    requires m <= |o| && |p| <= k < |p| + m
    ensures CountThrough(p + o[..m], |p|, k) == CountThrough(o, 0, k - |p|)
  {
    assert (p + o[..m])[|p|..k + 1] == o[0..k - |p| + 1];
  }

  /** A reply cut off inside its object (a truncated reply) yields nothing:
      the count never returns to zero. */
  lemma TruncatedObjectRejected<T>(p: string, o: string, m: nat, parse: string -> Option<T>)
    requires '{' !in p
    requires IsBraceBalancedObject(o)
    requires 0 < m < |o|
    ensures FindSpan(p + o[..m]) == None
    ensures ExtractJson(Some(p + o[..m]), parse) == None
  {
    var s := p + o[..m];
    ExtractedSpanShape(o, Span(0, |o| - 1));
    assert s[..|p|] == p;
    assert s[|p|] == '{';
    forall k | |p| <= k < |s|
      ensures CountThrough(s, |p|, k) > 0
    {
      CountInTruncation(p, o, m, k);
    }
  }

  /** Brace counting ignores string literals: in `{"a":"}"}` the quoted `}`
      closes the span, so the parser is handed `{"a":"}`. */
  lemma BraceInsideStringClosesSpan()
    ensures FindSpan("{\"a\":\"}\"}") == Some(Span(0, 6))
  {
    var s := "{\"a\":\"}\"}";
    QuotedBraceCounts();
    assert forall k :: 0 <= k < 6 ==> CountThrough(s, 0, k) != 0;
    assert IsExtractedSpan(s, Span(0, 6));
  }

  /** The running count over `{"a":"}"}`: one after each of the first six
      characters, zero after the quoted `}`. */
  lemma QuotedBraceCounts()
    ensures var s := "{\"a\":\"}\"}";
            && CountThrough(s, 0, 0) == 1 && CountThrough(s, 0, 1) == 1
            && CountThrough(s, 0, 2) == 1 && CountThrough(s, 0, 3) == 1
            && CountThrough(s, 0, 4) == 1 && CountThrough(s, 0, 5) == 1
            && CountThrough(s, 0, 6) == 0
  {
    var s := "{\"a\":\"}\"}";
    CountStep(s, 0, 0);
    assert s[0..0] == [];
    CountStep(s, 0, 1);
    assert s[0..1] == s[0..0 + 1];
    CountStep(s, 0, 2);
    assert s[0..2] == s[0..1 + 1];
    CountStep(s, 0, 3);
    assert s[0..3] == s[0..2 + 1];
    CountStep(s, 0, 4);
    assert s[0..4] == s[0..3 + 1];
    CountStep(s, 0, 5);
    assert s[0..5] == s[0..4 + 1];
    CountStep(s, 0, 6);
    assert s[0..6] == s[0..5 + 1];
  }
}
