/**
  The formatting pass of express-jsonschema (index.js, formatValidations).

  The validator reports, for one request property, a flat list of errors in
  the order it met them. The pass walks that list once and opens a new entry
  whenever an error's property path differs from the path of the entry it is
  currently filling; otherwise it appends the error's message to that entry.
  Grouping is therefore by adjacency (run length), not by a global key.
 */
module Formatting {
  import opened Wrappers

  /** One constraint violation as the validator reports it: the dotted
      property path, the message and the offending value. */
  datatype RawError<V> = RawError(property: string, message: string, instance: V)

  /** The validator's answer for one request property. */
  datatype ValidatorResult<V> = ValidatorResult(valid: bool, errors: seq<RawError<V>>)

  /** One formatted entry: a property path, the value of the first error of
      its run, and the messages of the whole run in order. */
  datatype Entry<V> = Entry(property: string, value: V, messages: seq<string>)

  /** The messages of a list of errors, in order. */
  function Messages<V>(errs: seq<RawError<V>>): seq<string>
  {
    seq(|errs|, i requires 0 <= i < |errs| => errs[i].message)
  }

  /** The messages of a list of entries, concatenated in order. */
  function AllMessages<V>(entries: seq<Entry<V>>): seq<string>
  {
    if entries == [] then [] else entries[0].messages + AllMessages(entries[1..])
  }

  /** The entry a run starts with. */
  function Open<V>(e: RawError<V>): Entry<V>
  {
    Entry(e.property, e.instance, [e.message])
  }

  /** The messages of two entry lists joined are the messages of each, joined. */
  lemma {:induction false} AllMessagesAppend<V>(a: seq<Entry<V>>, b: seq<Entry<V>>)
    ensures AllMessages(a + b) == AllMessages(a) + AllMessages(b)
    decreases |a|
  {
    if a != [] {
      AllMessagesAppend(a[1..], b);
      assert (a + b)[1..] == a[1..] + b;
    } else {
      assert a + b == b;
    }
  }

  /** One step of the pass: the error continues the run of the last entry
      when the paths agree, and opens a new entry otherwise. Every entry but
      the last is left alone, a continued entry keeps its value, the error's
      message is appended to the messages in order, and the last entry
      carries the error's path. */
  function Step<V>(entries: seq<Entry<V>>, e: RawError<V>): (r: seq<Entry<V>>)
    ensures |entries| <= |r| <= |entries| + 1 && r != []
    ensures |r| == |entries| + 1 <==> entries == [] || entries[|entries| - 1].property != e.property
    ensures |r| == |entries| + 1 ==> r[|r| - 1] == Open(e)
    ensures r[|r| - 1].property == e.property
    ensures forall i :: 0 <= i < |r| - 1 ==> r[i] == entries[i]
    ensures |r| == |entries| ==> r[|r| - 1].value == entries[|entries| - 1].value
    ensures AllMessages(r) == AllMessages(entries) + [e.message]
  {
    if entries != [] && entries[|entries| - 1].property == e.property then
      var n := |entries|;
      var last := entries[n - 1];
      var last' := last.(messages := last.messages + [e.message]);
      assert entries == entries[..n - 1] + [last];
      AllMessagesAppend(entries[..n - 1], [last]);
      AllMessagesAppend(entries[..n - 1], [last']);
      assert [last][1..] == [] && [last'][1..] == [];
      entries[..n - 1] + [last']
    else
      AllMessagesAppend(entries, [Open(e)]);
      assert [Open(e)][1..] == [];
      entries + [Open(e)]
  }

  /** The formatted entries of one request property's error list. */
  function Format<V>(errs: seq<RawError<V>>): (r: seq<Entry<V>>)
    ensures |r| <= |errs|
    ensures r == [] <==> errs == []
    ensures r != [] ==> r[|r| - 1].property == errs[|errs| - 1].property
  {
    if errs == [] then [] else Step(Format(errs[..|errs| - 1]), errs[|errs| - 1])
  }

  /** Number of positions where a run of equal paths begins. */
  function RunStarts<V>(errs: seq<RawError<V>>): nat
  {
    if errs == [] then 0
    else
      var n := |errs|;
      RunStarts(errs[..n - 1]) + if n == 1 || errs[n - 2].property != errs[n - 1].property then 1 else 0
  }

  /**
    An independent description of a correct grouping: the entries split the
    errors, front to back, into maximal runs of equal paths. Each entry
    carries the path of its run, the instance of the run's first error, and
    the run's messages in order; the error after a run has another path.
   */
  ghost predicate IsGrouping<V>(errs: seq<RawError<V>>, g: seq<Entry<V>>)
    decreases |g|
  {
    if g == [] then errs == []
    else
      var n := |g[0].messages|;
      && 0 < n <= |errs|
      && g[0].value == errs[0].instance
      && (forall j :: 0 <= j < n ==> errs[j].property == g[0].property && errs[j].message == g[0].messages[j])
      && (n < |errs| ==> errs[n].property != g[0].property)
      && IsGrouping(errs[n..], g[1..])
  }

  /** A single error is grouped into the entry it opens. */
  lemma OpenIsGrouping<V>(e: RawError<V>)
    ensures IsGrouping([e], [Open(e)])
  {
    assert [e][1..] == [];
    assert [Open(e)][1..] == [];
  }

  /** Stepping a list of two or more entries leaves its first entry alone. */
  lemma StepKeepsFront<V>(g: seq<Entry<V>>, e: RawError<V>)
    requires |g| > 1
    ensures Step(g, e) == [g[0]] + Step(g[1..], e)
  {
    if g[|g| - 1].property == e.property {
      assert g[..|g| - 1] == [g[0]] + g[1..][..|g[1..]| - 1];
    }
  }

  /** The step case of StepPreservesGrouping when the entries form one run. */
  lemma StepOnLastRun<V>(errs: seq<RawError<V>>, g: seq<Entry<V>>, e: RawError<V>)
    requires |g| == 1 && IsGrouping(errs, g)
    ensures IsGrouping(errs + [e], Step(g, e))
  {
    var all := errs + [e];
    var n := |g[0].messages|;
    assert errs[n..] == [];
    assert n == |errs|;
    var s := Step(g, e);
    if g[0].property == e.property {
      assert s == [g[0].(messages := g[0].messages + [e.message])];
      assert all[n + 1..] == [];
      assert s[1..] == [];
    } else {
      assert s == [g[0], Open(e)];
      assert all[n..] == [e];
      assert s[1..] == [Open(e)];
      OpenIsGrouping(e);
    }
  }

  /** Errors appended after the first run leave that run alone: the first
      entry still groups it when the rest is regrouped. */
  lemma GroupingKeepsFirstRun<V>(errs: seq<RawError<V>>, g: seq<Entry<V>>, extra: seq<RawError<V>>, tail: seq<Entry<V>>)
    requires g != [] && IsGrouping(errs, g) && |g[0].messages| < |errs|
    requires IsGrouping(errs[|g[0].messages|..] + extra, tail)
    ensures IsGrouping(errs + extra, [g[0]] + tail)
  {
    var n := |g[0].messages|;
    var all := errs + extra;
    assert all[n..] == errs[n..] + extra;
    assert all[..n + 1] == errs[..n + 1];
    assert ([g[0]] + tail)[1..] == tail;
  }

  /** The step case of StepPreservesGrouping when the last run is not the
      first: the first entry still groups the same first run. */
  lemma StepOnLaterRun<V>(errs: seq<RawError<V>>, g: seq<Entry<V>>, e: RawError<V>)
    requires |g| > 1 && IsGrouping(errs, g)
    requires IsGrouping(errs[|g[0].messages|..] + [e], Step(g[1..], e))
    ensures IsGrouping(errs + [e], Step(g, e))
  {
    assert errs[|g[0].messages|..] != [];
    StepKeepsFront(g, e);
    GroupingKeepsFirstRun(errs, g, [e], Step(g[1..], e));
  }

  /** Extending the errors by one and taking one step keeps a grouping a grouping. */
  lemma {:induction false} StepPreservesGrouping<V>(errs: seq<RawError<V>>, g: seq<Entry<V>>, e: RawError<V>)
    requires IsGrouping(errs, g)
    ensures IsGrouping(errs + [e], Step(g, e))
    decreases |g|
  {
    if g == [] {
      assert errs + [e] == [e];
      OpenIsGrouping(e);
    } else if |g| == 1 {
      StepOnLastRun(errs, g, e);
    } else {
      StepPreservesGrouping(errs[|g[0].messages|..], g[1..], e);
      StepOnLaterRun(errs, g, e);
    }
  }

  /** The pass produces a grouping of its input. */
  lemma {:induction false} FormatIsGrouping<V>(errs: seq<RawError<V>>)
    ensures IsGrouping(errs, Format(errs))
    decreases |errs|
  {
    if errs != [] {
      var n := |errs|;
      FormatIsGrouping(errs[..n - 1]);
      StepPreservesGrouping(errs[..n - 1], Format(errs[..n - 1]), errs[n - 1]);
      assert errs[..n - 1] + [errs[n - 1]] == errs;
    }
  }

  /** A list of errors has at most one grouping. */
  lemma {:induction false} GroupingUnique<V>(errs: seq<RawError<V>>, a: seq<Entry<V>>, b: seq<Entry<V>>)
    requires IsGrouping(errs, a) && IsGrouping(errs, b)
    ensures a == b
    decreases |a|
  {
    if a != [] {
      assert b != [];
      var na, nb := |a[0].messages|, |b[0].messages|;
      assert a[0].property == errs[0].property == b[0].property;
      assert na == nb;
      assert a[0].messages == b[0].messages;
      GroupingUnique(errs[na..], a[1..], b[1..]);
      assert a == [a[0]] + a[1..];
      assert b == [b[0]] + b[1..];
    } else {
      assert errs == [];
    }
  }

  /** The pass is the one and only grouping: an entry list is what the pass
      returns exactly when it satisfies the description above. */
  lemma FormatIsTheGrouping<V>(errs: seq<RawError<V>>, g: seq<Entry<V>>)
    ensures g == Format(errs) <==> IsGrouping(errs, g)
  {
    FormatIsGrouping(errs);
    if IsGrouping(errs, g) {
      GroupingUnique(errs, g, Format(errs));
    }
  }

  /** A grouping neither drops, duplicates nor reorders messages. */
  lemma {:induction false} GroupingKeepsMessages<V>(errs: seq<RawError<V>>, g: seq<Entry<V>>)
    requires IsGrouping(errs, g)
    ensures AllMessages(g) == Messages(errs)
    decreases |g|
  {
    if g != [] {
      var n := |g[0].messages|;
      GroupingKeepsMessages(errs[n..], g[1..]);
      assert Messages(errs)[..n] == g[0].messages;
      assert Messages(errs)[n..] == Messages(errs[n..]);
      assert Messages(errs) == Messages(errs)[..n] + Messages(errs)[n..];
    }
  }

  /** Consecutive entries of a grouping have different paths. */
  lemma {:induction false} GroupingAdjacentDistinct<V>(errs: seq<RawError<V>>, g: seq<Entry<V>>)
    requires IsGrouping(errs, g)
    ensures forall i :: 0 < i < |g| ==> g[i - 1].property != g[i].property
    decreases |g|
  {
    if |g| > 1 {
      var n := |g[0].messages|;
      GroupingAdjacentDistinct(errs[n..], g[1..]);
      assert g[1].property == errs[n..][0].property;
      forall i | 1 < i < |g| ensures g[i - 1].property != g[i].property {
        assert g[1..][i - 2] == g[i - 1] && g[1..][i - 1] == g[i];
      }
    }
  }

  /** Where entry k's run starts in the error list. */
  function Offset<V>(g: seq<Entry<V>>, k: nat): nat
    requires k <= |g|
  {
    if k == 0 then 0 else |g[0].messages| + Offset(g[1..], k - 1)
  }

  /** Entry e covers the errors from position o on: its value is the
      instance of the first of them, and every message it holds comes, in
      order, from an error with the entry's own path. */
  ghost predicate Covers<V>(errs: seq<RawError<V>>, e: Entry<V>, o: nat)
  {
    && 0 < |e.messages|
    && o + |e.messages| <= |errs|
    && e.value == errs[o].instance
    && forall j :: 0 <= j < |e.messages| ==>
         errs[o + j].message == e.messages[j] && errs[o + j].property == e.property
  }

  /** A run found in a suffix of the errors is found, shifted, in the whole. */
  lemma CoversShift<V>(errs: seq<RawError<V>>, n: nat, e: Entry<V>, o: nat)
    requires n <= |errs| && Covers(errs[n..], e, o)
    ensures Covers(errs, e, n + o)
  {
    var rest, o2 := errs[n..], n + o;
    forall j | 0 <= j < |e.messages|
      ensures errs[o2 + j].message == e.messages[j] && errs[o2 + j].property == e.property
    {
      assert errs[o2 + j] == rest[o + j];
      assert rest[o + j].message == e.messages[j];
      assert rest[o + j].property == e.property;
    }
    assert errs[o2] == rest[o];
  }

  /** Entry k of a grouping covers the run that starts at Offset(g, k). */
  lemma {:induction false} GroupingEntryAt<V>(errs: seq<RawError<V>>, g: seq<Entry<V>>, k: nat)
    requires IsGrouping(errs, g) && k < |g|
    ensures Covers(errs, g[k], Offset(g, k))
    decreases k
  {
    if k > 0 {
      var n := |g[0].messages|;
      GroupingEntryAt(errs[n..], g[1..], k - 1);
      assert g[1..][k - 1] == g[k];
      CoversShift(errs, n, g[k], Offset(g[1..], k - 1));
    }
  }

  /** The number of entries is the number of places where a run of equal
      paths begins: two errors for one path separated by another path give
      two entries. */
  lemma {:induction false} FormatCountsRuns<V>(errs: seq<RawError<V>>)
    ensures |Format(errs)| == RunStarts(errs)
    decreases |errs|
  {
    if errs != [] {
      var n := |errs|;
      var prev := errs[..n - 1];
      FormatCountsRuns(prev);
      if n > 1 {
        assert prev[|prev| - 1] == errs[n - 2];
      }
    }
  }

  /** Errors that all carry one path become a single entry holding every
      message, with the value of the first error (the "email" report of the
      functional tests, whose three constraints fail on one field). */
  lemma {:induction false} OneRunOneEntry<V>(errs: seq<RawError<V>>, p: string)
    requires errs != []
    requires forall i :: 0 <= i < |errs| ==> errs[i].property == p
    ensures Format(errs) == [Entry(p, errs[0].instance, Messages(errs))]
    decreases |errs|
  {
    var n := |errs|;
    if n > 1 {
      var prev := errs[..n - 1];
      OneRunOneEntry(prev, p);
      assert Messages(prev) + [errs[n - 1].message] == Messages(errs);
    } else {
      assert Messages(errs) == [errs[0].message];
    }
  }

  /** When no two neighbouring errors share a path, every error gets an
      entry of its own (the "firstName" and "lastName" report). */
  lemma {:induction false} NoRunsOneEntryEach<V>(errs: seq<RawError<V>>)
    requires forall i :: 0 < i < |errs| ==> errs[i - 1].property != errs[i].property
    ensures Format(errs) == seq(|errs|, i requires 0 <= i < |errs| => Open(errs[i]))
    decreases |errs|
  {
    var n := |errs|;
    if n > 0 {
      var prev := errs[..n - 1];
      NoRunsOneEntryEach(prev);
      if n > 1 {
        assert prev[n - 2] == errs[n - 2];
      }
    }
  }

  /** Adjacent errors for one path merge: [(p1, m1), (p1, m2), (p2, m3)]
      gives [{p1, [m1, m2]}, {p2, [m3]}]. */
  lemma AdjacentRunMerges<V>(p1: string, p2: string, m1: string, m2: string, m3: string, v1: V, v2: V, v3: V)
    requires p1 != p2
    ensures Format([RawError(p1, m1, v1), RawError(p1, m2, v2), RawError(p2, m3, v3)])
         == [Entry(p1, v1, [m1, m2]), Entry(p2, v3, [m3])]
  {
    var errs := [RawError(p1, m1, v1), RawError(p1, m2, v2), RawError(p2, m3, v3)];
    assert errs[..2][..1] == [errs[0]];
    assert errs[..2] == [errs[0], errs[1]];
    assert Format([errs[0]]) == [Entry(p1, v1, [m1])];
    assert Format(errs[..2]) == Step([Entry(p1, v1, [m1])], errs[1]);
    assert [m1] + [m2] == [m1, m2];
    assert Format(errs[..2]) == [Entry(p1, v1, [m1, m2])];
  }

  /** Errors for one path separated by another path are not merged. */
  lemma SeparatedRunsStaySeparate<V>(p1: string, p2: string, m1: string, m2: string, m3: string, v1: V, v2: V, v3: V)
    requires p1 != p2
    ensures Format([RawError(p1, m1, v1), RawError(p2, m2, v2), RawError(p1, m3, v3)])
         == [Entry(p1, v1, [m1]), Entry(p2, v2, [m2]), Entry(p1, v3, [m3])]
  {
    var errs := [RawError(p1, m1, v1), RawError(p2, m2, v2), RawError(p1, m3, v3)];
    assert errs[..2][..1] == [errs[0]];
    assert errs[..2] == [errs[0], errs[1]];
    assert Format([errs[0]]) == [Entry(p1, v1, [m1])];
    assert Format(errs[..2]) == [Entry(p1, v1, [m1]), Entry(p2, v2, [m2])];
  }

  /** Formatting one more error is one more step. */
  lemma FormatSnoc<V>(errors: seq<RawError<V>>, i: nat)
    requires i < |errors|
    ensures Format(errors[..i + 1]) == Step(Format(errors[..i]), errors[i])
  {
    assert errors[..i + 1][..i] == errors[..i];
  }

  /** A step on a path change opens a new entry. */
  lemma StepOpens<V>(entries: seq<Entry<V>>, e: RawError<V>)
    requires entries == [] || entries[|entries| - 1].property != e.property
    ensures Step(entries, e) == entries + [Open(e)]
  {
  }

  /** A step on the same path extends the last entry's messages. */
  lemma StepContinues<V>(entries: seq<Entry<V>>, e: RawError<V>)
    requires entries != [] && entries[|entries| - 1].property == e.property
    ensures Step(entries, e) == entries[..|entries| - 1] +
      [entries[|entries| - 1].(messages := entries[|entries| - 1].messages + [e.message])]
  {
  }

  /** What the report promises of the pass's output, gathered for its loop. */
  lemma FormatKeepsMessagesAndSplitsRuns<V>(errors: seq<RawError<V>>)
    ensures AllMessages(Format(errors)) == Messages(errors)
    ensures forall i :: 0 < i < |Format(errors)| ==> Format(errors)[i - 1].property != Format(errors)[i].property
  {
    FormatIsGrouping(errors);
    GroupingKeepsMessages(errors, Format(errors));
    GroupingAdjacentDistinct(errors, Format(errors));
  }

  /**
    The inner loop of formatValidations for one request property.
    `current` plays the part of currentPropertyValidation: it starts absent,
    so the first error always opens an entry, and it is always the entry most
    recently pushed.
   */
  method FormatErrors<V>(errors: seq<RawError<V>>) returns (propertyValidations: seq<Entry<V>>)
    ensures propertyValidations == Format(errors)
    ensures AllMessages(propertyValidations) == Messages(errors)
    ensures forall i :: 0 < i < |propertyValidations| ==>
              propertyValidations[i - 1].property != propertyValidations[i].property
  {
    propertyValidations := [];
    var current: Option<Entry<V>> := None;
    for i := 0 to |errors|
      invariant propertyValidations == Format(errors[..i])
      invariant current == if propertyValidations == [] then None
                           else Some(propertyValidations[|propertyValidations| - 1])
    {
      var propertyValidation := errors[i];
      FormatSnoc(errors, i);
      var isNewProperty := current.None? || current.value.property != propertyValidation.property;
      if isNewProperty {
        StepOpens(propertyValidations, propertyValidation);
        current := Some(Entry(propertyValidation.property, propertyValidation.instance, [propertyValidation.message]));
        propertyValidations := propertyValidations + [current.value];
      } else {
        StepContinues(propertyValidations, propertyValidation);
        current := Some(current.value.(messages := current.value.messages + [propertyValidation.message]));
        propertyValidations := propertyValidations[..|propertyValidations| - 1] + [current.value];
      }
    }
    assert errors[..|errors|] == errors;
    FormatKeepsMessagesAndSplitsRuns(errors);
  }

  /** formatValidations: format every request property's errors; the result
      has exactly the keys of its input. */
  method FormatValidations<V>(validations: map<string, ValidatorResult<V>>) returns (formatted: map<string, seq<Entry<V>>>)
    ensures formatted.Keys == validations.Keys
    ensures forall k :: k in formatted ==> formatted[k] == Format(validations[k].errors)
  {
    formatted := map[];
    var remaining := validations.Keys;
    while remaining != {}
      invariant remaining <= validations.Keys
      invariant formatted.Keys == validations.Keys - remaining
      invariant forall k :: k in formatted ==> formatted[k] == Format(validations[k].errors)
      decreases remaining
    {
      var requestProperty :| requestProperty in remaining;
      var propertyValidations := FormatErrors(validations[requestProperty].errors);
      formatted := formatted[requestProperty := propertyValidations];
      remaining := remaining - {requestProperty};
    }
  }
}
