/** Redacting text, pass by pass, in two buffers that take turns (crates/omne-fs/src/redaction.rs). */
module Redaction {
  import opened Wrappers
  import opened Filesystem

  /** Text as its UTF-8 bytes, which is how lengths are counted. */
  type Text = seq<Byte>

  /** A half-open range of a text. */
  datatype Match = Match(start: nat, end: nat)

  /** Compiled patterns: `find(k, text)` lists the matches of pattern `k` in a text, in order. */
  datatype Redactor = Redactor(count: nat, find: (nat, Text) -> seq<Match>, replacement: Text)

  const MAX_REDACTED_OUTPUT_BYTES: nat := 8 * 1024 * 1024

  /** Matches are ordered, do not overlap, and lie within the text. */
  ghost predicate InOrder(matches: seq<Match>, from: nat, length: nat) {
    && (forall k :: 0 <= k < |matches| ==> from <= matches[k].start <= matches[k].end <= length)
    && (forall j, k :: 0 <= j < k < |matches| ==> matches[j].end <= matches[k].start)
  }

  ghost predicate WellBehaved(redactor: Redactor) {
    forall k, text :: InOrder(redactor.find(k, text), 0, |text|)
  }

  // ---------------------------------------------------------------- one pass

  /** Where the text after the first `k` matches begins. */
  ghost function EndAt(matches: seq<Match>, k: nat): nat
    requires k <= |matches|
  {
    if k == 0 then 0 else matches[k - 1].end
  }

  /** The text up to the end of the first `k` matches, with each of them replaced. */
  ghost function Spliced(text: Text, matches: seq<Match>, replacement: Text, k: nat): Text
    requires InOrder(matches, 0, |text|) && k <= |matches|
  {
    if k == 0 then []
    else Spliced(text, matches, replacement, k - 1) + text[EndAt(matches, k - 1)..matches[k - 1].start] + replacement
  }

  /** The whole output of one pass. */
  ghost function Replaced(text: Text, matches: seq<Match>, replacement: Text): Text
    requires InOrder(matches, 0, |text|)
  {
    Spliced(text, matches, replacement, |matches|) + text[EndAt(matches, |matches|)..]
  }

  /** How much the first `k` matches cover. */
  function Matched(matches: seq<Match>, k: nat): int
    requires k <= |matches|
  {
    if k == 0 then 0 else Matched(matches, k - 1) + matches[k - 1].end - matches[k - 1].start
  }

  lemma {:induction false} SplicedLength(text: Text, matches: seq<Match>, replacement: Text, k: nat)
    requires InOrder(matches, 0, |text|) && k <= |matches|
    ensures |Spliced(text, matches, replacement, k)| == EndAt(matches, k) - Matched(matches, k) + k * |replacement|
    decreases k
  {
    if k > 0 {
      SplicedLength(text, matches, replacement, k - 1);
      assert k * |replacement| == (k - 1) * |replacement| + |replacement|;
    }
  }

  /** A pass takes out what matched and puts in one replacement for each match. */
  lemma ReplacedLength(text: Text, matches: seq<Match>, replacement: Text)
    requires InOrder(matches, 0, |text|)
    ensures |Replaced(text, matches, replacement)| == |text| - Matched(matches, |matches|) + |matches| * |replacement|
  {
    SplicedLength(text, matches, replacement, |matches|);
  }

  /** What has been written so far is part of the whole output. */
  lemma {:induction false} SplicedGrows(text: Text, matches: seq<Match>, replacement: Text, j: nat, k: nat)
    requires InOrder(matches, 0, |text|) && j <= k <= |matches|
    ensures |Spliced(text, matches, replacement, j)| <= |Spliced(text, matches, replacement, k)|
    decreases k
  {
    if j < k {
      SplicedGrows(text, matches, replacement, j, k - 1);
    }
  }

  /** How far what follows the first `k` matches is moved. */
  function Shift(matches: seq<Match>, replacement: Text, k: nat): int
    requires k <= |matches|
  {
    k * |replacement| - Matched(matches, k)
  }

  ghost predicate PlacedAt(output: Text, at: int, piece: Text) {
    0 <= at && at + |piece| <= |output| && output[at..at + |piece|] == piece
  }

  /** Where the text between match `k - 1` and match `k` stops. */
  function GapEnd(text: Text, matches: seq<Match>, k: nat): nat
    requires k <= |matches|
  {
    if k < |matches| then matches[k].start else |text|
  }

  /** The output has the replacement where each match was and the text between the matches around it, all
      of it moved by what has been put in and taken out before, and nothing else. */
  ghost predicate IsReplacement(text: Text, matches: seq<Match>, replacement: Text, output: Text)
    requires InOrder(matches, 0, |text|)
  {
    && |output| == |text| + Shift(matches, replacement, |matches|)
    && (forall k :: 0 <= k < |matches| ==>
          PlacedAt(output, matches[k].start + Shift(matches, replacement, k), replacement))
    && (forall k :: 0 <= k <= |matches| ==> GapKept(text, matches, replacement, output, k))
  }

  ghost predicate GapKept(text: Text, matches: seq<Match>, replacement: Text, output: Text, k: nat)
    requires InOrder(matches, 0, |text|) && k <= |matches|
  {
    var from, to := if k == 0 then 0 else matches[k - 1].end, GapEnd(text, matches, k);
    from <= to && PlacedAt(output, from + Shift(matches, replacement, k), text[from..to])
  }

  lemma {:induction false} SplicedPrefix(text: Text, matches: seq<Match>, replacement: Text, j: nat, k: nat)
    requires InOrder(matches, 0, |text|) && j <= k <= |matches|
    ensures Spliced(text, matches, replacement, j) <= Spliced(text, matches, replacement, k)
    decreases k
  {
    if j < k {
      SplicedPrefix(text, matches, replacement, j, k - 1);
    }
  }

  /** Every piece of a pass's output is where it belongs. */
  lemma ReplacedByPosition(text: Text, matches: seq<Match>, replacement: Text)
    requires InOrder(matches, 0, |text|)
    ensures IsReplacement(text, matches, replacement, Replaced(text, matches, replacement))
  {
    ReplacedLength(text, matches, replacement);
    LastGap(text, matches, replacement);
    forall k | 0 <= k < |matches|
      ensures PlacedAt(Replaced(text, matches, replacement), matches[k].start + Shift(matches, replacement, k), replacement)
      ensures GapKept(text, matches, replacement, Replaced(text, matches, replacement), k)
    {
      ReplacedAt(text, matches, replacement, k);
    }
  }

  lemma LastGap(text: Text, matches: seq<Match>, replacement: Text)
    requires InOrder(matches, 0, |text|)
    ensures GapKept(text, matches, replacement, Replaced(text, matches, replacement), |matches|)
  {
    var n := |matches|;
    var output, rest := Replaced(text, matches, replacement), text[EndAt(matches, n)..];
    SplicedLength(text, matches, replacement, n);
    assert output[|Spliced(text, matches, replacement, n)|..] == rest;
    assert text[EndAt(matches, n)..|text|] == rest;
  }

  lemma ReplacedAt(text: Text, matches: seq<Match>, replacement: Text, k: nat)
    requires InOrder(matches, 0, |text|) && k < |matches|
    ensures PlacedAt(Replaced(text, matches, replacement), matches[k].start + Shift(matches, replacement, k), replacement)
    ensures GapKept(text, matches, replacement, Replaced(text, matches, replacement), k)
  {
    var output, begun := Replaced(text, matches, replacement), Spliced(text, matches, replacement, k + 1);
    OneMatch(text, matches, replacement, k);
    SplicedPrefix(text, matches, replacement, k + 1, |matches|);
    assert begun <= output;
    PlacedInPrefix(begun, output, matches[k].start + Shift(matches, replacement, k), replacement);
    PlacedInPrefix(begun, output, EndAt(matches, k) + Shift(matches, replacement, k),
                   text[EndAt(matches, k)..matches[k].start]);
  }

  lemma PlacedInPrefix(a: Text, output: Text, at: int, piece: Text)
    requires a <= output && PlacedAt(a, at, piece)
    ensures PlacedAt(output, at, piece)
  {
    assert output[at..at + |piece|] == a[at..at + |piece|];
  }

  lemma OneMatch(text: Text, matches: seq<Match>, replacement: Text, k: nat)
    requires InOrder(matches, 0, |text|) && k < |matches|
    ensures EndAt(matches, k) <= matches[k].start
    ensures var a, gap := Spliced(text, matches, replacement, k + 1), text[EndAt(matches, k)..matches[k].start];
            && PlacedAt(a, EndAt(matches, k) + Shift(matches, replacement, k), gap)
            && PlacedAt(a, matches[k].start + Shift(matches, replacement, k), replacement)
  {
    assert k > 0 ==> matches[k - 1].end <= matches[k].start;
    SplicedLength(text, matches, replacement, k);
    var before, gap := Spliced(text, matches, replacement, k), text[EndAt(matches, k)..matches[k].start];
    var a := Spliced(text, matches, replacement, k + 1);
    assert a == before + gap + replacement;
    assert a[|before|..|before| + |gap|] == gap;
    assert a[|before| + |gap|..|before| + |gap| + |replacement|] == replacement;
  }

  datatype PassResult = NoMatch | PassReplaced | PassLimitExceeded

  /** `append_segment_with_limit`. */
  method AppendSegmentWithLimit(buffers: array<Text>, target: nat, segment: Text) returns (ok: bool)
    requires target < buffers.Length
    modifies buffers
    ensures ok <==> old(|buffers[target]|) + |segment| <= MAX_REDACTED_OUTPUT_BYTES
    ensures buffers[target] == old(buffers[target]) + (if ok then segment else [])
    ensures forall k :: 0 <= k < buffers.Length && k != target ==> buffers[k] == old(buffers[k])
  {
    ok := |buffers[target]| + |segment| <= MAX_REDACTED_OUTPUT_BYTES;
    if ok {
      buffers[target] := buffers[target] + segment;
    } else {
      assert buffers[target] + [] == buffers[target];
    }
  }

  /** `replace_regex_with_limit`: what the target buffer held before does not matter. The input is not in
      the target buffer, which is cleared first. */
  method ReplaceRegexWithLimit(input: Text, matches: seq<Match>, replacement: Text, buffers: array<Text>,
      ghost source: Option<nat>, target: nat)
    returns (r: PassResult)
    requires target < buffers.Length && InOrder(matches, 0, |input|)
    requires source.Some? ==> source.value < buffers.Length && buffers[source.value] == input && source.value != target
    modifies buffers
    ensures r.NoMatch? <==> matches == []
    ensures r.NoMatch? ==> buffers[target] == old(buffers[target])
    ensures r.PassReplaced? ==> buffers[target] == Replaced(input, matches, replacement)
    ensures r.PassReplaced? ==> IsReplacement(input, matches, replacement, buffers[target])
    ensures r.PassLimitExceeded? ==> |Replaced(input, matches, replacement)| > MAX_REDACTED_OUTPUT_BYTES
    ensures r.PassReplaced? ==> |buffers[target]| <= MAX_REDACTED_OUTPUT_BYTES
    ensures forall k :: 0 <= k < buffers.Length && k != target ==> buffers[k] == old(buffers[k])
  {
    if matches == [] {
      return NoMatch;
    }
    buffers[target] := [];
    var last := 0;
    var k := 0;
    while k < |matches|
      invariant 0 <= k <= |matches| && last == EndAt(matches, k) && last <= |input|
      invariant buffers[target] == Spliced(input, matches, replacement, k)
      invariant forall j :: 0 <= j < buffers.Length && j != target ==> buffers[j] == old(buffers[j])
    {
      var found := matches[k];
      assert last <= found.start by { assert k > 0 ==> matches[k-1].end <= matches[k].start; }
      SplicedGrows(input, matches, replacement, k + 1, |matches|);
      var ok := AppendSegmentWithLimit(buffers, target, input[last..found.start]);
      if !ok {
        return PassLimitExceeded;
      }
      ok := AppendSegmentWithLimit(buffers, target, replacement);
      if !ok {
        return PassLimitExceeded;
      }
      last := found.end;
      k := k + 1;
    }
    var ok := AppendSegmentWithLimit(buffers, target, input[last..]);
    ReplacedByPosition(input, matches, replacement);
    r := if ok then PassReplaced else PassLimitExceeded;
  }

  // ---------------------------------------------------------------- all passes

  /** `owned` tells whether any pass replaced anything. */
  datatype Outcome = Redacted(text: Text, owned: bool) | OutputLimitExceeded

  /** What pattern `k` makes of a text, if it matches at all. */
  ghost function Rewriter(redactor: Redactor): (nat, Text) -> Option<Text>
    requires WellBehaved(redactor)
  {
    (k: nat, text: Text) =>
      var matches := redactor.find(k, text);
      if matches == [] then None else Some(Replaced(text, matches, redactor.replacement))
  }

  type Rewriting = (nat, Text) -> Option<Text>

  /** One more pass; empty text is left alone. */
  function Pass(before: Outcome, rewritten: Option<Text>): Outcome {
    if before.OutputLimitExceeded? || before.text == [] || rewritten == None then before
    else if |rewritten.value| > MAX_REDACTED_OUTPUT_BYTES then OutputLimitExceeded
    else Redacted(rewritten.value, true)
  }

  function TextOf(o: Outcome): Text {
    if o.Redacted? then o.text else []
  }

  /** The first `k` passes, one after the other. */
  ghost function Redact(rewrite: Rewriting, text: Text, k: nat): Outcome
  {
    if k == 0 then Redacted(text, false)
    else
      var before := Redact(rewrite, text, k - 1);
      Pass(before, rewrite(k - 1, TextOf(before)))
  }

  /** Nothing changes any more once the text is empty or the limit has been exceeded. */
  lemma {:induction false} StaysAsItIs(rewrite: Rewriting, text: Text, j: nat, k: nat)
    requires j <= k
    requires Redact(rewrite, text, j).Redacted? ==> Redact(rewrite, text, j).text == []
    ensures Redact(rewrite, text, k) == Redact(rewrite, text, j)
    decreases k
  {
    if j < k {
      StaysAsItIs(rewrite, text, j, k - 1);
    }
  }

  datatype ActiveBuffer = First | Second

  function IndexOf(b: ActiveBuffer): nat {
    match b case First => 0 case Second => 1
  }

  /** What the passes so far have come to. */
  function Current(input: Text, buffers: seq<Text>, active: Option<ActiveBuffer>): Outcome
    requires |buffers| == 2
  {
    match active
    case None => Redacted(input, false)
    case Some(b) => Redacted(buffers[IndexOf(b)], true)
  }

  ghost predicate Agrees(redactor: Redactor, rewrite: Rewriting, k: nat, text: Text)
    requires WellBehaved(redactor)
  {
    rewrite(k, text) == Rewriter(redactor)(k, text)
  }

  ghost predicate Rewrites(redactor: Redactor, rewrite: Rewriting)
    requires WellBehaved(redactor)
  {
    forall k, text :: Agrees(redactor, rewrite, k, text)
  }

  /** One pass, from `source` into the other buffer. */
  method OnePass(redactor: Redactor, ghost rewrite: Rewriting, k: nat, source: Text, buffers: array<Text>,
      ghost from: Option<nat>, target: nat)
    returns (r: PassResult)
    requires WellBehaved(redactor) && Rewrites(redactor, rewrite) && target < buffers.Length
    requires from.Some? ==> from.value < buffers.Length && buffers[from.value] == source && from.value != target
    modifies buffers
    ensures match rewrite(k, source)
            case None => r.NoMatch? && buffers[target] == old(buffers[target])
            case Some(u) => if |u| > MAX_REDACTED_OUTPUT_BYTES then r.PassLimitExceeded? else r.PassReplaced? && buffers[target] == u
    ensures forall j :: 0 <= j < buffers.Length && j != target ==> buffers[j] == old(buffers[j])
  {
    assert Agrees(redactor, rewrite, k, source);
    r := ReplaceRegexWithLimit(source, redactor.find(k, source), redactor.replacement, buffers, from, target);
  }

  /** `redact_text_outcome`: the two buffers compute the passes. */
  method RedactTextOutcome(redactor: Redactor, input: Text) returns (r: Outcome)
    requires WellBehaved(redactor)
    ensures r == Redact(Rewriter(redactor), input, redactor.count)
  {
    assert forall k, text :: Agrees(redactor, Rewriter(redactor), k, text);
    r := RunPasses(redactor, Rewriter(redactor), input);
  }

  method RunPasses(redactor: Redactor, ghost rewrite: Rewriting, input: Text) returns (r: Outcome)
    requires WellBehaved(redactor) && Rewrites(redactor, rewrite)
    ensures r == Redact(rewrite, input, redactor.count)
  {
    if redactor.count == 0 || input == [] {
      if input == [] {
        StaysAsItIs(rewrite, input, 0, redactor.count);
      }
      return Redacted(input, false);
    }
    var buffers := new Text[2](_ => []);
    var active: Option<ActiveBuffer> := None;
    var k := 0;
    while k < redactor.count
      invariant 0 <= k <= redactor.count && buffers.Length == 2
      invariant Redact(rewrite, input, k) == Current(input, buffers[..], active)
    {
      var source := match active case None => input case Some(b) => buffers[IndexOf(b)];
      var next := if active == Some(First) then Second else First;
      if source == [] {
        StaysAsItIs(rewrite, input, k, redactor.count);
        return Current(input, buffers[..], active);
      }
      ghost var from := match active case None => None case Some(b) => Some(IndexOf(b));
      var result := OnePass(redactor, rewrite, k, source, buffers, from, IndexOf(next));
      match result {
        case NoMatch =>
        case PassReplaced => active := Some(next);
        case PassLimitExceeded =>
          StaysAsItIs(rewrite, input, k + 1, redactor.count);
          return OutputLimitExceeded;
      }
      k := k + 1;
    }
    r := Current(input, buffers[..], active);
  }

  // ---------------------------------------------------------------- what the passes mean

  /** What pass `k` does: text that is empty or not matched is left alone, any other becomes the output
      with its matches replaced, unless that is over the limit. */
  lemma PassMeaning(redactor: Redactor, input: Text, k: nat)
    requires WellBehaved(redactor)
    ensures Redact(Rewriter(redactor), input, 0) == Redacted(input, false)
    ensures var before, after := Redact(Rewriter(redactor), input, k), Redact(Rewriter(redactor), input, k + 1);
            match before
            case OutputLimitExceeded => after == OutputLimitExceeded
            case Redacted(text, _) =>
              var matches := redactor.find(k, text);
              if text == [] || matches == [] then after == before
              else if |text| + Shift(matches, redactor.replacement, |matches|) > MAX_REDACTED_OUTPUT_BYTES
              then after == OutputLimitExceeded
              else after.Redacted? && after.owned && IsReplacement(text, matches, redactor.replacement, after.text)
  {
    var before := Redact(Rewriter(redactor), input, k);
    if before.Redacted? {
      ReplacedByPosition(before.text, redactor.find(k, before.text), redactor.replacement);
      ReplacedLength(before.text, redactor.find(k, before.text), redactor.replacement);
    }
  }

  /** The input comes back as it is exactly when no pattern matches it, or when it is empty. */
  lemma {:induction false} BorrowedWhenNothingMatches(rewrite: Rewriting, text: Text, k: nat)
    ensures Redact(rewrite, text, k) == Redacted(text, false)
            <==> text == [] || forall j :: 0 <= j < k ==> rewrite(j, text) == None
    ensures Redact(rewrite, text, k).Redacted? && !Redact(rewrite, text, k).owned ==>
              Redact(rewrite, text, k).text == text
    decreases k
  {
    if k > 0 {
      BorrowedWhenNothingMatches(rewrite, text, k - 1);
    }
  }

  function UnlimitedPass(t: Text, rewritten: Option<Text>): Text {
    if t == [] || rewritten == None then t else rewritten.value
  }

  /** The text that the first `k` passes would come to if there were no limit. */
  ghost function Unlimited(rewrite: Rewriting, text: Text, k: nat): Text
  {
    if k == 0 then text
    else
      var t := Unlimited(rewrite, text, k - 1);
      UnlimitedPass(t, rewrite(k - 1, t))
  }

  /** The full output of pass `j` is over the limit. */
  ghost predicate TooLong(rewrite: Rewriting, text: Text, j: nat)
  {
    var t := Unlimited(rewrite, text, j);
    t != [] && match rewrite(j, t) case None => false case Some(u) => |u| > MAX_REDACTED_OUTPUT_BYTES
  }

  /** The limit is reported exactly when the full output of some pass is over it; otherwise the result
      is what it would be without a limit. */
  lemma {:induction false} LimitWhenSomePassIsTooLong(rewrite: Rewriting, text: Text, k: nat)
    ensures Redact(rewrite, text, k).OutputLimitExceeded?
            <==> exists j :: 0 <= j < k && TooLong(rewrite, text, j)
    ensures Redact(rewrite, text, k).Redacted? ==>
              Redact(rewrite, text, k).text == Unlimited(rewrite, text, k)
    decreases k
  {
    if k > 0 {
      LimitWhenSomePassIsTooLong(rewrite, text, k - 1);
      assert Redact(rewrite, text, k).OutputLimitExceeded? && Redact(rewrite, text, k - 1).Redacted?
             ==> TooLong(rewrite, text, k - 1);
    }
  }

  /** What is returned is within the limit, unless nothing was replaced. */
  lemma {:induction false} ResultWithinLimit(rewrite: Rewriting, text: Text, k: nat)
    ensures Redact(rewrite, text, k).Redacted? && Redact(rewrite, text, k).owned ==>
              |Redact(rewrite, text, k).text| <= MAX_REDACTED_OUTPUT_BYTES
    decreases k
  {
    if k > 0 {
      ResultWithinLimit(rewrite, text, k - 1);
    }
  }

  /** For the redactor itself: unchanged text means that nothing was found. */
  lemma RedactorBorrows(redactor: Redactor, text: Text)
    requires WellBehaved(redactor)
    ensures Redact(Rewriter(redactor), text, redactor.count) == Redacted(text, false)
            <==> text == [] || forall j :: 0 <= j < redactor.count ==> redactor.find(j, text) == []
  {
    BorrowedWhenNothingMatches(Rewriter(redactor), text, redactor.count);
    forall j | 0 <= j < redactor.count
      ensures Rewriter(redactor)(j, text) == None <==> redactor.find(j, text) == []
    {
    }
  }
}
