/** The `data` callback attached to both output streams of the child
    (packages/parity-electron/src/runParity.js:53, 61-68). Each spawned child
    starts with no recorded line; every non-empty chunk overwrites it, whole
    ("last chunk", not split at line breaks). A stream always delivers a
    `Buffer`, which is truthy, so of the guard `data && data.length` only the
    length test can fail; chunks are modelled as their decoded text. */
module LastLine {

  import opened Wrappers

  /** A chunk the callback records: one of non-zero length. */
  predicate Recordable(chunk: string)
  {
    |chunk| > 0
  }

  /** One call of the callback on the stored line `last`. */
  function Observe(last: Option<string>, chunk: string): (r: Option<string>)
    ensures Recordable(chunk) ==> r == Some(chunk)
    ensures !Recordable(chunk) ==> r == last
  {
    if Recordable(chunk) then Some(chunk) else last
  }

  /** The stored line after the callback has seen `chunks`, in delivery order
      (stdout and stderr chunks interleaved as the event loop delivers them). */
  function ObserveAll(last: Option<string>, chunks: seq<string>): (r: Option<string>)
    decreases |chunks|
  {
    if |chunks| == 0 then last else ObserveAll(Observe(last, chunks[0]), chunks[1..])
  }

  /** `i` is the position of the last recordable chunk. */
  ghost predicate IsLastRecordable(chunks: seq<string>, i: int)
  {
    && 0 <= i < |chunks|
    && Recordable(chunks[i])
    && forall j :: i < j < |chunks| ==> !Recordable(chunks[j])
  }

  ghost predicate NoneRecordable(chunks: seq<string>)
  {
    forall j :: 0 <= j < |chunks| ==> !Recordable(chunks[j])
  }

  /** Every recordable chunk is followed by a last one. */
  lemma {:induction false} LastRecordableAfter(chunks: seq<string>, j: int) returns (i: int)
    requires 0 <= j < |chunks| && Recordable(chunks[j])
    ensures j <= i && IsLastRecordable(chunks, i)
    decreases |chunks| - j
  {
    if exists j' :: j < j' < |chunks| && Recordable(chunks[j']) {
      var j' :| j < j' < |chunks| && Recordable(chunks[j']);
      i := LastRecordableAfter(chunks, j');
    } else {
      i := j;
    }
  }

  /** With nothing recordable in the stream, the stored line is untouched. */
  lemma {:induction false} ObserveAllNoneRecordable(last: Option<string>, chunks: seq<string>)
    requires NoneRecordable(chunks)
    ensures ObserveAll(last, chunks) == last
    decreases |chunks|
  {
    if |chunks| > 0 {
      ObserveAllNoneRecordable(last, chunks[1..]);
    }
  }

  /** Otherwise the stored line is exactly the last recordable chunk,
      whatever was stored before and whatever came earlier. */
  lemma {:induction false} ObserveAllIsLastRecordable(last: Option<string>, chunks: seq<string>, i: int)
    requires IsLastRecordable(chunks, i)
    ensures ObserveAll(last, chunks) == Some(chunks[i])
    decreases |chunks|
  {
    if i == 0 {
      ObserveAllNoneRecordable(Some(chunks[0]), chunks[1..]);
    } else {
      assert IsLastRecordable(chunks[1..], i - 1);
      ObserveAllIsLastRecordable(Observe(last, chunks[0]), chunks[1..], i - 1);
    }
  }

  /** Once a line is stored it is never lost, and what is stored is never empty. */
  lemma {:induction false} ObserveAllKeepsRecordable(last: Option<string>, chunks: seq<string>)
    requires last.None? || Recordable(last.value)
    ensures var r := ObserveAll(last, chunks); (last.Some? ==> r.Some?) && (r.None? || Recordable(r.value))
    decreases |chunks|
  {
    if |chunks| > 0 {
      ObserveAllKeepsRecordable(Observe(last, chunks[0]), chunks[1..]);
    }
  }

  /** Splitting the stream anywhere does not matter: the callback is a left fold. */
  lemma {:induction false} ObserveAllAppend(last: Option<string>, xs: seq<string>, ys: seq<string>)
    ensures ObserveAll(last, xs + ys) == ObserveAll(ObserveAll(last, xs), ys)
    decreases |xs|
  {
    if |xs| == 0 {
      assert xs + ys == ys;
    } else {
      assert (xs + ys)[1..] == xs[1..] + ys;
      ObserveAllAppend(Observe(last, xs[0]), xs[1..], ys);
    }
  }
}
