/** include/string.h: `strtok`, which keeps its place in a static pointer between calls. */
module Tokens {

  datatype Option<T> = None | Some(value: T)

  /** A stretch `[from, to)` of the text. */
  datatype Span = Span(from: nat, to: nat)

  predicate Separates(delims: string, c: char) {
    c in delims
  }

  /** A nonempty stretch without delimiters that cannot be extended either way. */
  ghost predicate MaximalRun(text: string, delims: string, r: Span) {
    && r.from < r.to <= |text|
    && (forall i :: r.from <= i < r.to ==> !Separates(delims, text[i]))
    && (r.from == 0 || Separates(delims, text[r.from - 1]))
    && (r.to == |text| || Separates(delims, text[r.to]))
  }

  function Skip(text: string, delims: string, i: nat): (r: nat)
    requires i <= |text|
    ensures i <= r <= |text|
    ensures forall k :: i <= k < r ==> Separates(delims, text[k])
    ensures r < |text| ==> !Separates(delims, text[r])
    decreases |text| - i
  {
    if i == |text| || !Separates(delims, text[i]) then i else Skip(text, delims, i + 1)
  }

  function RunEnd(text: string, delims: string, i: nat): (r: nat)
    requires i <= |text|
    ensures i <= r <= |text|
    ensures forall k :: i <= k < r ==> !Separates(delims, text[k])
    ensures r < |text| ==> Separates(delims, text[r])
    decreases |text| - i
  {
    if i == |text| || Separates(delims, text[i]) then i else RunEnd(text, delims, i + 1)
  }

  /** The stretches found by calls that start at `i`. */
  function Spans(text: string, delims: string, i: nat): seq<Span>
    requires i <= |text|
    decreases |text| - i
  {
    var start := Skip(text, delims, i);
    if start == |text| then []
    else
      var end := RunEnd(text, delims, start);
      [Span(start, end)] + (if end < |text| then Spans(text, delims, end + 1) else [])
  }

  /** One call's worth of the search. */
  lemma SpansStep(text: string, delims: string, i: nat)
    requires i <= |text|
    ensures var start := Skip(text, delims, i);
            start == |text| ==> Spans(text, delims, i) == []
    ensures var start := Skip(text, delims, i);
            start < |text| ==>
              var end := RunEnd(text, delims, start);
              && start < end <= |text|
              && Spans(text, delims, i) == [Span(start, end)] + After(text, delims, end)
  {
    hide Separates;
    var start := Skip(text, delims, i);
    if start < |text| {
      var end := RunEnd(text, delims, start);
      assert start < |text| && !Separates(delims, text[start]);
    }
  }

  /** The stretches left once a run that ends at `end` was returned. */
  function After(text: string, delims: string, end: nat): seq<Span>
    requires end <= |text|
  {
    if end < |text| then Spans(text, delims, end + 1) else []
  }

  /** Searching from a place that follows a delimiter finds exactly the maximal runs from there on. */
  lemma {:induction false} SpansExact(text: string, delims: string, i: nat, r: Span)
    requires i <= |text| && (i == 0 || Separates(delims, text[i - 1]))
    ensures r in Spans(text, delims, i) <==> MaximalRun(text, delims, r) && i <= r.from
    decreases |text| - i
  {
    hide Separates, Spans;
    SpansStep(text, delims, i);
    var start := Skip(text, delims, i);
    if start < |text| {
      var end := RunEnd(text, delims, start);
      assert MaximalRun(text, delims, Span(start, end));
      if end < |text| {
        SpansExact(text, delims, end + 1, r);
      }
      if MaximalRun(text, delims, r) && i <= r.from {
        RunPlaced(text, delims, i, start, end, r);
      }
    } else {
      assert i <= r.from < |text| ==> Separates(delims, text[r.from]);
    }
  }

  ghost predicate InOrder(spans: seq<Span>, i: nat) {
    && (forall k :: 0 <= k < |spans| ==> i <= spans[k].from < spans[k].to)
    && (forall j, k :: 0 <= j < k < |spans| ==> spans[j].to < spans[k].from)
  }

  /** They are found in order, with a delimiter between neighbours. */
  lemma {:induction false} SpansInOrder(text: string, delims: string, i: nat)
    requires i <= |text|
    ensures InOrder(Spans(text, delims, i), i)
    decreases |text| - i
  {
    hide Separates, InOrder, Spans, Skip, RunEnd;
    SpansStep(text, delims, i);
    var start := Skip(text, delims, i);
    NoSpans(i);
    if start == |text| {
    } else {
      var end := RunEnd(text, delims, start);
      assert start < end;
      if end < |text| {
        SpansInOrder(text, delims, end + 1);
        Prepended(Span(start, end), Spans(text, delims, end + 1), i);
      } else {
        NoSpans(end + 1);
        Prepended(Span(start, end), [], i);
      }
    }
  }

  lemma NoSpans(i: nat)
    ensures InOrder([], i)
  {
  }

  lemma Prepended(first: Span, rest: seq<Span>, i: nat)
    requires i <= first.from < first.to && InOrder(rest, first.to + 1)
    ensures InOrder([first] + rest, i)
  {
  }

  lemma RunPlaced(text: string, delims: string, i: nat, start: nat, end: nat, r: Span)
    requires i <= start < end <= |text| && MaximalRun(text, delims, r) && i <= r.from
    requires forall k :: i <= k < start ==> Separates(delims, text[k])
    requires forall k :: start <= k < end ==> !Separates(delims, text[k])
    requires end < |text| ==> Separates(delims, text[end])
    ensures r == Span(start, end) || (end < |text| && end + 1 <= r.from)
  {
    hide Separates;
    assert !Separates(delims, text[r.from]);
    if r.from <= end && r.from < |text| {
      assert start <= r.from < end;
      assert r.from == start;
      assert r.to >= end && r.to <= end;
    }
  }

  class Tokenizer {
    var text: string
    /** The static save pointer: null, or a place in the text. */
    var save: Option<nat>

    ghost predicate Valid()
      reads this
    {
      save.Some? ==> save.value <= |text|
    }

    /** The stretches the coming calls will return. */
    ghost function Left(delims: string): seq<Span>
      reads this
      requires Valid()
    {
      if save == None then [] else Spans(text, delims, save.value)
    }

    constructor ()
      ensures Valid() && save == None
    {
      text, save := "", None;
    }

    /** `strtok`: each call consumes the first stretch that is left; when none is left it returns nothing. */
    method Next(str: Option<string>, delims: string) returns (token: Option<string>)
      requires Valid()
      modifies this
      ensures Valid()
      ensures str.Some? ==> text == str.value
      ensures str == None ==> text == old(text)
      ensures var left := if str.Some? then Spans(str.value, delims, 0) else old(Left(delims));
              if left == [] then token == None && Left(delims) == []
              else token.Some? && left[0].from <= left[0].to <= |text|
                   && token.value == text[left[0].from..left[0].to] && Left(delims) == left[1..]
    {
      hide Skip, RunEnd, Separates, Spans;
      if str.Some? {
        text, save := str.value, Some(0);
      }
      if save == None {
        return None;
      }
      SpansStep(text, delims, save.value);
      var start := FindStart(save.value, delims);
      if start == |text| {
        return None;
      }
      var end := FindEnd(start, delims);
      token := Some(text[start..end]);
      save := if end < |text| then Some(end + 1) else None;
    }

    method FindStart(from: nat, delims: string) returns (start: nat)
      requires from <= |text|
      ensures start == Skip(text, delims, from)
    {
      start := from;
      while start < |text| && Separates(delims, text[start])
        invariant from <= start <= |text| && Skip(text, delims, start) == Skip(text, delims, from)
      {
        start := start + 1;
      }
    }

    method FindEnd(from: nat, delims: string) returns (end: nat)
      requires from <= |text|
      ensures end == RunEnd(text, delims, from)
    {
      end := from;
      while end < |text| && !Separates(delims, text[end])
        invariant from <= end <= |text| && RunEnd(text, delims, end) == RunEnd(text, delims, from)
      {
        end := end + 1;
      }
    }
  }
}
