/** Counting decoder failures and giving up on a format (src/client.rs). */
module VideoHandlers {
  import opened Wrappers

  const MAX_DECODE_FAIL_COUNTER := 3
  const USIZE_MAX := 0xFFFF_FFFF_FFFF_FFFF

  type Codec = string

  /** decoded is None when the frame carries no picture, and otherwise says whether a picture came out. */
  datatype Event = Frame(format: Codec, decoded: Option<bool>) | Reset(newFormat: Option<Codec>)

  /** results are the outcomes since the last reset. */
  datatype Video = Video(format: Codec, failCounter: nat, firstFrame: bool, results: seq<bool>)

  function New(format: Codec): Video {
    Video(format, 0, true, [])
  }

  function AfterReset(v: Video, format: Option<Codec>): Video {
    New(if format.Some? then format.value else v.format)
  }

  /** One more failure, which counts for several when it is the first frame's. */
  function Failed(counter: nat, first: bool): nat {
    if counter >= USIZE_MAX then counter
    else if first && counter < MAX_DECODE_FAIL_COUNTER then MAX_DECODE_FAIL_COUNTER
    else counter + 1
  }

  function AfterFrame(v: Video, format: Codec, decoded: Option<bool>): Video {
    var w := if format != v.format then AfterReset(v, Some(format)) else v;
    match decoded
    case None => w
    case Some(ok) =>
      w.(failCounter := if ok then 0 else Failed(w.failCounter, w.firstFrame),
         firstFrame := false, results := w.results + [ok])
  }

  function Next(v: Video, e: Event): Video {
    match e
    case Frame(format, decoded) => AfterFrame(v, format, decoded)
    case Reset(format) => AfterReset(v, format)
  }

  function Run(v: Video, events: seq<Event>): Video {
    if events == [] then v else Next(Run(v, events[..|events| - 1]), events[|events| - 1])
  }

  /** Length of the run of failures at the end. */
  function TrailingFailures(results: seq<bool>): (n: nat)
    ensures n <= |results|
    ensures forall i | |results| - n <= i < |results| :: !results[i]
    ensures n < |results| ==> results[|results| - 1 - n]
  {
    if results == [] || results[|results| - 1] then 0 else 1 + TrailingFailures(results[..|results| - 1])
  }

  /** A trailing run that reaches back to the first frame counts two more; the counter saturates. */
  function ExpectedCounter(results: seq<bool>): nat {
    var n := TrailingFailures(results);
    var count := if n > 0 && n == |results| then n + MAX_DECODE_FAIL_COUNTER - 1 else n;
    if count < USIZE_MAX then count else USIZE_MAX
  }

  ghost predicate Explained(v: Video) {
    v.failCounter == ExpectedCounter(v.results) && (v.firstFrame <==> v.results == [])
  }

  lemma AppendResult(results: seq<bool>, ok: bool)
    ensures TrailingFailures(results + [ok]) == if ok then 0 else 1 + TrailingFailures(results)
  {
    assert (results + [ok])[..|results|] == results;
  }

  lemma ResultExplained(w: Video, ok: bool)
    requires Explained(w)
    ensures ExpectedCounter(w.results + [ok]) == if ok then 0 else Failed(w.failCounter, w.firstFrame)
  {
    AppendResult(w.results, ok);
  }

  lemma StepExplained(v: Video, e: Event)
    requires Explained(v)
    ensures Explained(Next(v, e))
  {
    if e.Frame? && e.decoded.Some? {
      var w := if e.format != v.format then AfterReset(v, Some(e.format)) else v;
      ResultExplained(w, e.decoded.value);
    }
  }

  lemma {:induction false} RunExplained(v: Video, events: seq<Event>)
    requires Explained(v)
    ensures Explained(Run(v, events))
  {
    if events != [] {
      RunExplained(v, events[..|events| - 1]);
      StepExplained(Run(v, events[..|events| - 1]), events[|events| - 1]);
    }
  }

  /**
    * After any run the counter reaches the limit exactly when the failures at the end either go back to the first
    * frame since the last reset or are at least as many as the limit.
    */
  lemma LimitReached(format: Codec, events: seq<Event>)
    ensures var v := Run(New(format), events);
            var n := TrailingFailures(v.results);
            v.failCounter >= MAX_DECODE_FAIL_COUNTER
            <==> (n > 0 && n == |v.results|) || n >= MAX_DECODE_FAIL_COUNTER
  {
    RunExplained(New(format), events);
  }

  // ---- the current stretch ----

  /** The format that the events name last. */
  function FormatOf(format: Codec, events: seq<Event>): Codec {
    if events == [] then format
    else
      match events[|events| - 1]
      case Frame(named, _) => named
      case Reset(Some(named)) => named
      case Reset(None) => FormatOf(format, events[..|events| - 1])
  }

  /** Whether a picture came out, for every frame that carried one. */
  function Pictures(events: seq<Event>): seq<bool> {
    if events == [] then []
    else
      match events[|events| - 1]
      case Frame(_, Some(ok)) => Pictures(events[..|events| - 1]) + [ok]
      case _ => Pictures(events[..|events| - 1])
  }

  /** The frames from k on are all of the current format, and a reset or another format stands before them. */
  ghost predicate IsStretch(format: Codec, events: seq<Event>, k: nat) {
    && k <= |events|
    && (forall i | k <= i < |events| :: events[i].Frame? && events[i].format == FormatOf(format, events))
    && (k > 0 ==> events[k - 1].Reset?
                  || (k < |events| && FormatOf(format, events[..k]) != FormatOf(format, events)))
  }

  /** The handler has the format that was named last, and counts the outcomes since a reset or another format. */
  lemma {:induction false} CurrentStretch(format: Codec, events: seq<Event>) returns (k: nat)
    ensures IsStretch(format, events, k)
    ensures Run(New(format), events).format == FormatOf(format, events)
    ensures Run(New(format), events).results == Pictures(events[k..])
  {
    if events == [] {
      k := 0;
    } else {
      var n := |events| - 1;
      var front := events[..n];
      k := CurrentStretch(format, front);
      if events[n].Reset? {
        k := n + 1;
        assert events[n + 1..] == [];
      } else if events[n].format == FormatOf(format, front) {
        assert events[k..][..n - k] == front[k..];
        assert k > 0 ==> events[..k] == front[..k];
      } else {
        k := n;
        assert events[n..][..0] == [];
      }
    }
  }

  // ---- the formats given up ----

  /** valid says whether the decoder could be created at all. */
  function Marked(marks: seq<Codec>, v: Video, valid: bool): seq<Codec> {
    if (!valid || v.failCounter >= MAX_DECODE_FAIL_COUNTER) && v.format !in marks then marks + [v.format] else marks
  }

  /** The video thread looks at the counter after every frame. */
  function RunMarks(format: Codec, events: seq<Event>, valid: seq<bool>, marks: seq<Codec>): seq<Codec>
    requires |valid| == |events|
  {
    if events == [] then marks
    else
      var n := |events| - 1;
      var before := RunMarks(format, events[..n], valid[..n], marks);
      if events[n].Frame? then Marked(before, Run(New(format), events), valid[n]) else before
  }

  ghost predicate NoDuplicates(marks: seq<Codec>) {
    forall i, j | 0 <= i < j < |marks| :: marks[i] != marks[j]
  }

  /** The list only grows, at its end, and never holds a format twice. */
  lemma {:induction false} MarksGrow(format: Codec, events: seq<Event>, valid: seq<bool>, marks: seq<Codec>, n: nat)
    requires |valid| == |events| && n <= |events| && NoDuplicates(marks)
    ensures marks <= RunMarks(format, events[..n], valid[..n], marks) <= RunMarks(format, events, valid, marks)
    ensures NoDuplicates(RunMarks(format, events, valid, marks))
    decreases |events|, n
  {
    if n < |events| {
      var m := |events| - 1;
      assert events[..m][..n] == events[..n] && valid[..m][..n] == valid[..n];
      MarksGrow(format, events[..m], valid[..m], marks, n);
    } else if n > 0 {
      assert events[..n] == events && valid[..n] == valid;
      MarksGrow(format, events, valid, marks, n - 1);
    }
  }

  /** Once a frame reaches the limit the current format is on the list. */
  lemma LimitIsMarked(format: Codec, events: seq<Event>, valid: seq<bool>, marks: seq<Codec>)
    requires |valid| == |events| > 0 && events[|events| - 1].Frame?
    ensures var v := Run(New(format), events);
            v.failCounter >= MAX_DECODE_FAIL_COUNTER ==> v.format in RunMarks(format, events, valid, marks)
  {
  }

  /** A format is listed only if it was before, or a frame of it found the decoder invalid or the limit reached. */
  lemma {:induction false} MarkedExactly(format: Codec, events: seq<Event>, valid: seq<bool>, marks: seq<Codec>,
                                         given: Codec)
    requires |valid| == |events|
    ensures given in RunMarks(format, events, valid, marks) <==>
            || given in marks
            || exists n | 0 < n <= |events| ::
                 && events[n - 1].Frame? && Run(New(format), events[..n]).format == given
                 && (!valid[n - 1] || Run(New(format), events[..n]).failCounter >= MAX_DECODE_FAIL_COUNTER)
  {
    if events != [] {
      var m := |events| - 1;
      MarkedExactly(format, events[..m], valid[..m], marks, given);
      assert events[..m + 1] == events;
      assert forall n | 0 <= n <= m :: events[..m][..n] == events[..n];
    }
  }

  // ---- the handler itself ----

  /** What the decoder makes of a frame: a picture, none, or an error. */
  datatype Outcome = Ok(picture: bool) | Err

  /** Everything but a picture counts as a failure. */
  function Success(decoded: Option<Outcome>): Option<bool> {
    match decoded
    case None => None
    case Some(outcome) => Some(outcome == Ok(true))
  }

  class VideoHandler {
    var format: Codec
    var failCounter: nat
    var firstFrame: bool
    ghost var results: seq<bool>

    ghost function View(): Video
      reads this
    {
      Video(format, failCounter, firstFrame, results)
    }

    constructor (format: Codec)
      ensures View() == New(format)
    {
      this.format := format;
      failCounter, firstFrame, results := 0, true, [];
    }

    method ResetDecoder(newFormat: Option<Codec>)
      modifies this
      ensures View() == AfterReset(old(View()), newFormat)
    {
      if newFormat.Some? {
        format := newFormat.value;
      }
      failCounter := 0;
      firstFrame := true;
      results := [];
    }

    /** A frame without content is reported like one without a picture, and counts neither way. */
    method HandleFrame(frameFormat: Codec, decoded: Option<Outcome>) returns (r: Outcome)
      modifies this
      ensures View() == AfterFrame(old(View()), frameFormat, Success(decoded))
      ensures r == if decoded.Some? then decoded.value else Ok(false)
    {
      if frameFormat != format {
        ResetDecoder(Some(frameFormat));
      }
      match decoded
      case None => return Ok(false);
      case Some(res) =>
        if res == Ok(true) {
          failCounter := 0;
        } else if failCounter < USIZE_MAX {
          if firstFrame && failCounter < MAX_DECODE_FAIL_COUNTER {
            failCounter := MAX_DECODE_FAIL_COUNTER;
          } else {
            failCounter := failCounter + 1;
          }
        }
        firstFrame := false;
        results := results + [res == Ok(true)];
        return res;
    }

    method MarkUnsupported(marks: seq<Codec>, valid: bool) returns (r: seq<Codec>)
      ensures r == Marked(marks, View(), valid)
    {
      r := marks;
      if !valid || failCounter >= MAX_DECODE_FAIL_COUNTER {
        if format !in r {
          r := r + [format];
        }
      }
    }
  }
}
