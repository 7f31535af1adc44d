/**
 Pulling the records of a pulse in batches, skipping requests for empty
 pulses, and the worker semaphore.

 The platform's answers are scripts: what each request and each stream
 returns.  Running out of script stands for a cancelled context.
 */
module Extractor {
  import opened Common

  datatype Rec = Rec(pulse: int, body: string)

  /** A streamed response; `iterateFrom` is set on the packet after the last record. */
  datatype Response = Response(record: Rec, iterateFrom: Option<int>)

  /** How a stream ends: portion over, to be requested again, or beyond repair. */
  datatype End = Eof | RateLimited | NotFinal | NoData

  datatype Attempt =
    | VersionRefused
    | NotOpened
    | Opened(responses: seq<Response>, end: End)

  datatype Item = Item(pulse: int, records: seq<Rec>)

  /** What one call pushes to the channel and returns. */
  datatype Outcome = Outcome(pushed: seq<Item>, next: Option<int>)

  // ---------------------------------------------------------------------
  // One pulse
  // ---------------------------------------------------------------------

  predicate IsMarker(pulse: int, r: Response) {
    r.iterateFrom.Some? || r.record.pulse != pulse
  }

  function MarkerOf(r: Response): int {
    if r.iterateFrom.Some? then r.iterateFrom.value else r.record.pulse
  }

  /** The records a stream adds before its marker or its end. */
  function Portion(pulse: int, rs: seq<Response>): seq<Rec> {
    if rs == [] || IsMarker(pulse, rs[0]) then [] else [rs[0].record] + Portion(pulse, rs[1..])
  }

  function Marker(pulse: int, rs: seq<Response>): Option<int> {
    if rs == [] then None
    else if IsMarker(pulse, rs[0]) then Some(MarkerOf(rs[0]))
    else Marker(pulse, rs[1..])
  }

  function Retrieve(pulse: int, script: seq<Attempt>, acc: seq<Rec>): Outcome {
    if script == [] then Outcome([], None) else
      match script[0]
      case VersionRefused => Outcome([], None)
      case NotOpened => Retrieve(pulse, script[1..], acc)
      case Opened(rs, end) =>
        var got := acc + Portion(pulse, rs);
        match Marker(pulse, rs)
        case Some(m) => Outcome([Item(pulse, got)], Some(m))
        case None => if end == NoData then Outcome([], None) else Retrieve(pulse, script[1..], got)
  }

  /** A response that ends pulse `pulse` and points to `next`. */
  ghost predicate PointsTo(pulse: int, next: int, r: Response) {
    r.iterateFrom == Some(next) || (r.iterateFrom.None? && r.record.pulse == next != pulse)
  }

  /** Records k, k + 1, ... of the pulse, `m` of them, then nothing more or the marker. */
  ghost predicate Served(all: seq<Rec>, next: int, pulse: int, k: nat, rs: seq<Response>, m: nat) {
    && m <= |rs| && k + m <= |all|
    && (forall j :: 0 <= j < m ==> rs[j] == Response(all[k + j], None) && all[k + j].pulse == pulse)
    && (m < |rs| ==> k + m == |all| && PointsTo(pulse, next, rs[m]))
  }

  /**
   The platform's promise for a request at offset k: the stream yields the
   records from k on, and the marker only after the last one.
   */
  ghost predicate Honest(all: seq<Rec>, next: int, pulse: int, k: nat, a: Attempt) {
    a.Opened? ==> exists m :: Served(all, next, pulse, k, a.responses, m)
  }

  /** Each request asks from the number of records received so far. */
  ghost predicate HonestScript(all: seq<Rec>, next: int, pulse: int, k: nat, script: seq<Attempt>)
    decreases |script|
  {
    script != [] ==>
      && Honest(all, next, pulse, k, script[0])
      && HonestScript(all, next, pulse,
           if script[0].Opened? then k + |Portion(pulse, script[0].responses)| else k, script[1..])
  }

  /** What is taken from an honest stream. */
  lemma {:induction false} ServedPortion(all: seq<Rec>, next: int, pulse: int, k: nat, rs: seq<Response>, m: nat)
    requires Served(all, next, pulse, k, rs, m)
    ensures Portion(pulse, rs) == all[k..k + m]
    ensures Marker(pulse, rs) == if m < |rs| then Some(next) else None
    decreases m
  {
    if m > 0 {
      assert rs[0] == Response(all[k + 0], None) && all[k + 0].pulse == pulse;
      forall j | 0 <= j < m - 1
        ensures rs[1..][j] == Response(all[k + 1 + j], None) && all[k + 1 + j].pulse == pulse
      {
        assert rs[j + 1] == Response(all[k + (j + 1)], None) && all[k + (j + 1)].pulse == pulse;
      }
      ServedPortion(all, next, pulse, k + 1, rs[1..], m - 1);
      assert all[k..k + m] == [all[k]] + all[k + 1..k + m];
    }
  }

  predicate Fatal(pulse: int, a: Attempt) {
    a.VersionRefused? || (a.Opened? && Marker(pulse, a.responses).None? && a.end == NoData)
  }

  predicate Finishes(pulse: int, a: Attempt) {
    a.Opened? && Marker(pulse, a.responses).Some?
  }

  /** A marker comes before anything fatal and before cancellation. */
  predicate Completes(pulse: int, script: seq<Attempt>) {
    script != [] && (Finishes(pulse, script[0]) || (!Fatal(pulse, script[0]) && Completes(pulse, script[1..])))
  }

  /** A stream that reaches its marker, and an attempt after which the call goes on. */
  predicate ReachesMarker(pulse: int, a: Attempt) {
    a.Opened? && exists r :: r in a.responses && (r.iterateFrom.Some? || r.record.pulse != pulse)
  }

  predicate Repeatable(a: Attempt) {
    a == NotOpened || (a.Opened? && (a.end == Eof || a.end == RateLimited || a.end == NotFinal))
  }

  lemma {:induction false} MarkerReached(pulse: int, rs: seq<Response>)
    ensures Marker(pulse, rs).Some? <==> exists r :: r in rs && (r.iterateFrom.Some? || r.record.pulse != pulse)
  {
    if rs != [] {
      MarkerReached(pulse, rs[1..]);
      assert forall r :: r in rs <==> r == rs[0] || r in rs[1..];
    }
  }

  /** The attempt that completes a pulse, after repeatable ones only. */
  ghost predicate CompletesAt(pulse: int, script: seq<Attempt>, i: nat) {
    i < |script| && ReachesMarker(pulse, script[i]) && forall j :: 0 <= j < i ==> Repeatable(script[j])
  }

  lemma {:induction false} CompletesExactly(pulse: int, script: seq<Attempt>)
    ensures Completes(pulse, script) <==> exists i: nat :: CompletesAt(pulse, script, i)
  {
    if script != [] {
      var a, rest := script[0], script[1..];
      CompletesExactly(pulse, rest);
      if a.Opened? {
        MarkerReached(pulse, a.responses);
      }
      if i: nat :| CompletesAt(pulse, rest, i) {
        if Repeatable(a) {
          assert CompletesAt(pulse, script, i + 1);
        }
      }
      if ReachesMarker(pulse, a) {
        assert CompletesAt(pulse, script, 0);
      } else if i: nat :| CompletesAt(pulse, script, i) {
        assert CompletesAt(pulse, rest, i - 1);
      }
    }
  }

  /**
   Under any pattern of batch ends, rate limits and not-final errors the call
   pushes the pulse's records exactly, or nothing; and it pushes them exactly
   when a stream reaches the marker first.
   */
  lemma {:induction false} RetrieveExact(all: seq<Rec>, next: int, pulse: int, k: nat, script: seq<Attempt>)
    requires k <= |all| && HonestScript(all, next, pulse, k, script)
    ensures Retrieve(pulse, script, all[..k]) ==
      if Completes(pulse, script) then Outcome([Item(pulse, all)], Some(next)) else Outcome([], None)
    decreases |script|
  {
    if script != [] {
      match script[0]
      case VersionRefused =>
      case NotOpened =>
        RetrieveExact(all, next, pulse, k, script[1..]);
      case Opened(rs, end) =>
        var got := Portion(pulse, rs);
        assert Honest(all, next, pulse, k, script[0]);
        var m :| Served(all, next, pulse, k, rs, m);
        ServedPortion(all, next, pulse, k, rs, m);
        assert all[..k] + got == all[..k + |got|];
        assert all[..|all|] == all;
        if Marker(pulse, rs).None? && end != NoData {
          RetrieveExact(all, next, pulse, k + |got|, script[1..]);
        }
    }
  }

  // ---------------------------------------------------------------------
  // A run of pulses in serial mode
  // ---------------------------------------------------------------------

  /** An answer to the request for the next pulse. */
  datatype Reply =
    | VersionError
    | RateLimit
    | NotFound
    | OtherError
    | NextPulse(pulse: int, script: seq<Attempt>)

  /** `Blocked`: every attempt to take a slot has failed so far. */
  datatype Exit = Cancelled | VersionExit | Reached | Blocked

  datatype Result = Result(items: seq<Item>, exit: Exit)

  /** A request is made only at or above the remembered pulse. */
  function FetchOrSkip(next: Option<int>, pulse: int, script: seq<Attempt>): Outcome {
    if next.None? || pulse >= next.value then Retrieve(pulse, script, []) else Outcome([Item(pulse, [])], next)
  }

  /** The main thread, which has no upper end, never stops. */
  predicate IsMain(until: int) {
    until <= 0
  }

  predicate Stops(until: int, pulse: int) {
    !IsMain(until) && pulse >= until
  }

  /** The serial loop; `next` is the remembered next pulse with records. */
  function Serial(current: int, until: int, next: Option<int>, replies: seq<Reply>): Result
    decreases |replies|
  {
    if replies == [] then Result([], Cancelled) else
      match replies[0]
      case VersionError => Result([], VersionExit)
      case NextPulse(pulse, script) =>
        if pulse == current then Serial(current, until, next, replies[1..])
        else
          var out := FetchOrSkip(next, pulse, script);
          if Stops(until, pulse) then Result(out.pushed, Reached)
          else
            var rest := Serial(pulse, until, out.next, replies[1..]);
            Result(out.pushed + rest.items, rest.exit)
      case _ => Serial(current, until, next, replies[1..])
  }

  /** The platform's history: the records of every pulse. */
  type History = int -> seq<Rec>

  /** Pulses come in ascending order, with honest streams and markers. */
  ghost predicate HonestReply(h: History, current: int, r: Reply) {
    r.NextPulse? && r.pulse != current ==>
      && r.pulse > current
      && exists next :: HonestScript(h(r.pulse), next, r.pulse, 0, r.script) && EmptyBetween(h, r.pulse, next)
  }

  /** `next` is at most the first pulse after `p` that has records. */
  ghost predicate EmptyBetween(h: History, p: int, next: int) {
    forall q :: p < q < next ==> h(q) == []
  }

  ghost predicate HonestReplies(h: History, current: int, replies: seq<Reply>)
    decreases |replies|
  {
    replies != [] ==>
      && HonestReply(h, current, replies[0])
      && HonestReplies(h, if replies[0].NextPulse? then replies[0].pulse else current, replies[1..])
  }

  ghost predicate Exact(h: History, items: seq<Item>) {
    forall i :: 0 <= i < |items| ==> items[i].records == h(items[i].pulse)
  }

  lemma FetchExact(h: History, current: int, r: Reply) returns (out: Outcome)
    requires r.NextPulse? && r.pulse != current && HonestReply(h, current, r)
    ensures out == Retrieve(r.pulse, r.script, [])
    ensures if Completes(r.pulse, r.script)
      then out.pushed == [Item(r.pulse, h(r.pulse))] && out.next.Some? && EmptyBetween(h, r.pulse, out.next.value)
      else out == Outcome([], None)
  {
    var next :| HonestScript(h(r.pulse), next, r.pulse, 0, r.script) && EmptyBetween(h, r.pulse, next);
    RetrieveExact(h(r.pulse), next, r.pulse, 0, r.script);
    assert h(r.pulse)[..0] == [];
    out := Retrieve(r.pulse, r.script, []);
  }

  /** The new pulses of a run of replies, up to the one that ends it. */
  function Arrivals(current: int, until: int, replies: seq<Reply>): seq<int>
    decreases |replies|
  {
    if replies == [] || replies[0].VersionError? then []
    else if replies[0].NextPulse? && replies[0].pulse != current then
      [replies[0].pulse] +
      if Stops(until, replies[0].pulse) then [] else Arrivals(replies[0].pulse, until, replies[1..])
    else Arrivals(current, until, replies[1..])
  }

  ghost function AllItems(h: History, pulses: seq<int>): (items: seq<Item>)
    ensures |items| == |pulses|
  {
    if pulses == [] then [] else [Item(pulses[0], h(pulses[0]))] + AllItems(h, pulses[1..])
  }

  /** No stream that the loop opens is cut off for good; a skipped pulse opens none. */
  predicate FetchesComplete(current: int, until: int, next: Option<int>, replies: seq<Reply>)
    decreases |replies|
  {
    if replies == [] || replies[0].VersionError? then true
    else if replies[0].NextPulse? && replies[0].pulse != current then
      var pulse, script := replies[0].pulse, replies[0].script;
      && (next.None? || pulse >= next.value ==> Completes(pulse, script))
      && (Stops(until, pulse) || FetchesComplete(pulse, until, FetchOrSkip(next, pulse, script).next, replies[1..]))
    else FetchesComplete(current, until, next, replies[1..])
  }

  ghost predicate Remembered(h: History, current: int, next: Option<int>) {
    next.Some? ==> EmptyBetween(h, current, next.value)
  }

  /** One new pulse: its item, or nothing if its stream is cut off. */
  lemma NewPulse(h: History, current: int, next: Option<int>, r: Reply) returns (out: Outcome)
    requires r.NextPulse? && r.pulse != current && HonestReply(h, current, r) && Remembered(h, current, next)
    ensures out == FetchOrSkip(next, r.pulse, r.script) && Remembered(h, r.pulse, out.next)
    ensures out.pushed ==
      if (next.Some? && r.pulse < next.value) || Completes(r.pulse, r.script) then [Item(r.pulse, h(r.pulse))] else []
  {
    if next.None? || r.pulse >= next.value {
      out := FetchExact(h, current, r);
    } else {
      out := Outcome([Item(r.pulse, [])], next);
      assert h(r.pulse) == [];
    }
  }

  /**
   Skipping requests below the remembered pulse emits what fetching would:
   every item carries exactly the records of its pulse, and every new pulse
   has its item exactly when no stream the loop opens is cut off for good.
   */
  lemma {:induction false} SkippingIsFetching(
    h: History, current: int, until: int, next: Option<int>, replies: seq<Reply>)
    requires HonestReplies(h, current, replies) && Remembered(h, current, next)
    ensures Exact(h, Serial(current, until, next, replies).items)
    ensures |Serial(current, until, next, replies).items| <= |Arrivals(current, until, replies)|
    ensures Serial(current, until, next, replies).items == AllItems(h, Arrivals(current, until, replies)) <==>
      FetchesComplete(current, until, next, replies)
    decreases |replies|
  {
    if replies != [] {
      var r := replies[0];
      if r.NextPulse? && r.pulse != current {
        var out := NewPulse(h, current, next, r);
        if !Stops(until, r.pulse) {
          SkippingIsFetching(h, r.pulse, until, out.next, replies[1..]);
          ItemsFrom(h, r.pulse, out.pushed, Serial(r.pulse, until, out.next, replies[1..]).items,
                    Arrivals(r.pulse, until, replies[1..]));
        } else {
          ItemsFrom(h, r.pulse, out.pushed, [], []);
        }
      } else if !r.VersionError? {
        SkippingIsFetching(h, current, until, next, replies[1..]);
      }
    }
  }

  lemma ItemsFrom(h: History, pulse: int, pushed: seq<Item>, items: seq<Item>, pulses: seq<int>)
    requires pushed == [Item(pulse, h(pulse))] || pushed == []
    requires |items| <= |pulses|
    ensures pushed + items == AllItems(h, [pulse] + pulses) <==> pushed != [] && items == AllItems(h, pulses)
    ensures pushed + [] == pushed && [pulse] + [] == [pulse]
  {
    assert ([pulse] + pulses)[1..] == pulses;
    if pushed != [] && pushed + items == AllItems(h, [pulse] + pulses) {
      assert items == (pushed + items)[1..];
    }
  }

  // ---------------------------------------------------------------------
  // Both modes, reply by reply
  // ---------------------------------------------------------------------

  /** `items` go to the channel at once, `spawned` pulses to goroutines. */
  datatype Progress =
    | Going(current: int, next: Option<int>, items: seq<Item>, spawned: seq<int>)
    | Over(exit: Exit, items: seq<Item>, spawned: seq<int>)

  function Answer(serial: bool, until: int, p: Progress, r: Reply): Progress {
    if p.Over? || r.RateLimit? || r.NotFound? || r.OtherError? then p
    else if r.VersionError? then Over(VersionExit, p.items, p.spawned)
    else if r.pulse == p.current then p
    else
      var out := if serial then FetchOrSkip(p.next, r.pulse, r.script) else Outcome([], p.next);
      var items := p.items + out.pushed;
      var spawned := if serial then p.spawned else p.spawned + [r.pulse];
      if Stops(until, r.pulse) then Over(Reached, items, spawned) else Going(r.pulse, out.next, items, spawned)
  }

  function Walk(serial: bool, until: int, start: Progress, replies: seq<Reply>): Progress {
    if replies == [] then start
    else Answer(serial, until, Walk(serial, until, start, replies[..|replies| - 1]), replies[|replies| - 1])
  }

  lemma {:induction false} WalkOn(serial: bool, until: int, start: Progress, replies: seq<Reply>)
    requires replies != []
    ensures Walk(serial, until, start, replies) ==
      Walk(serial, until, Answer(serial, until, start, replies[0]), replies[1..])
  {
    var n := |replies| - 1;
    if n > 0 {
      WalkOn(serial, until, start, replies[..n]);
      assert replies[..n][1..] == replies[1..][..n - 1];
    }
  }

  lemma {:induction false} WalkOver(serial: bool, until: int, start: Progress, replies: seq<Reply>)
    requires start.Over?
    ensures Walk(serial, until, start, replies) == start
  {
    if replies != [] {
      WalkOver(serial, until, start, replies[..|replies| - 1]);
    }
  }

  /** The pulse that the loop stands at after some replies. */
  ghost function LastArrived(from: int, replies: seq<Reply>): int {
    if replies == [] then from
    else if replies[|replies| - 1].NextPulse? then replies[|replies| - 1].pulse
    else LastArrived(from, replies[..|replies| - 1])
  }

  /** Reply i brings a pulse other than the one the loop stands at. */
  ghost predicate NewAt(from: int, replies: seq<Reply>, i: nat)
    requires i < |replies|
  {
    replies[i].NextPulse? && replies[i].pulse != LastArrived(from, replies[..i])
  }

  /** Reply i ends a reload up to `until`: a new pulse at or beyond that end. */
  ghost predicate EndsAt(from: int, until: int, replies: seq<Reply>, i: nat)
    requires i < |replies|
  {
    NewAt(from, replies, i) && 0 < until <= replies[i].pulse
  }

  /** The loop goes on over the first n replies. */
  ghost predicate GoesOn(from: int, until: int, replies: seq<Reply>, n: nat)
    requires n <= |replies|
  {
    forall i :: 0 <= i < n ==> !replies[i].VersionError? && !EndsAt(from, until, replies, i)
  }

  lemma AnswerEnds(serial: bool, until: int, from: int, replies: seq<Reply>, i: nat, p: Progress)
    requires i < |replies| && p.Going? && p.current == LastArrived(from, replies[..i])
    ensures var p' := Answer(serial, until, p, replies[i]);
      && (p'.Over? <==> replies[i].VersionError? || EndsAt(from, until, replies, i))
      && (p'.Over? ==> p'.exit == if replies[i].VersionError? then VersionExit else Reached)
      && (p'.Going? ==> p'.current == LastArrived(from, replies[..i + 1]))
  {
    assert replies[..i + 1][..i] == replies[..i];
  }

  /** Where the loop started at `from` is after the replies. */
  ghost function Walked(serial: bool, until: int, from: int, replies: seq<Reply>): Progress {
    Walk(serial, until, Going(from, None, [], []), replies)
  }

  lemma {:induction false} WalkGoesOn(serial: bool, until: int, from: int, replies: seq<Reply>, n: nat)
    requires n <= |replies| && Walked(serial, until, from, replies[..n]).Going?
    ensures GoesOn(from, until, replies, n)
    ensures Walked(serial, until, from, replies[..n]).current == LastArrived(from, replies[..n])
  {
    if n > 0 {
      assert replies[..n][..n - 1] == replies[..n - 1];
      WalkGoesOn(serial, until, from, replies, n - 1);
      AnswerEnds(serial, until, from, replies, n - 1, Walked(serial, until, from, replies[..n - 1]));
    }
  }

  /** Reply n is the last one handled exactly if it is a version error or ends the reload. */
  lemma WalkEnds(serial: bool, until: int, from: int, replies: seq<Reply>, n: nat)
    requires n < |replies| && Walked(serial, until, from, replies[..n]).Going?
    ensures var p := Walked(serial, until, from, replies[..n + 1]);
      && (p.Over? <==> replies[n].VersionError? || EndsAt(from, until, replies, n))
      && (p.Over? ==> p.exit == if replies[n].VersionError? then VersionExit else Reached)
  {
    assert replies[..n + 1][..n] == replies[..n];
    WalkGoesOn(serial, until, from, replies, n);
    AnswerEnds(serial, until, from, replies, n, Walked(serial, until, from, replies[..n]));
  }

  lemma {:induction false} WalkMode(serial: bool, until: int, from: int, replies: seq<Reply>)
    ensures var p := Walked(serial, until, from, replies); if serial then p.spawned == [] else p.items == []
  {
    if replies != [] {
      WalkMode(serial, until, from, replies[..|replies| - 1]);
    }
  }

  /** The end of a loop in terms of `until` and the replies seen. */
  ghost predicate EndIsRight(from: int, until: int, replies: seq<Reply>, seen: nat, exit: Exit)
    requires seen <= |replies|
  {
    && (seen > 0 ==> GoesOn(from, until, replies, seen - 1))
    && (exit == Reached <==> seen > 0 && EndsAt(from, until, replies, seen - 1))
    && (exit == VersionExit <==> seen > 0 && replies[seen - 1].VersionError?)
  }

  lemma RightEnd(serial: bool, until: int, from: int, replies: seq<Reply>, seen: nat, exit: Exit)
    requires seen <= |replies|
    requires seen > 0 ==> Walked(serial, until, from, replies[..seen - 1]).Going?
    requires var p := Walked(serial, until, from, replies[..seen]);
      if p.Over? then exit == p.exit else exit == Cancelled || exit == Blocked
    ensures EndIsRight(from, until, replies, seen, exit)
  {
    if seen > 0 {
      WalkGoesOn(serial, until, from, replies, seen - 1);
      WalkEnds(serial, until, from, replies, seen - 1);
    }
  }

  function ExitOf(p: Progress): Exit {
    if p.Over? then p.exit else Cancelled
  }

  /** Walking reply by reply in serial mode is the recursive serial loop. */
  lemma {:induction false} SerialIsWalk(until: int, start: Progress, replies: seq<Reply>)
    requires start.Going?
    ensures var rest := Serial(start.current, until, start.next, replies);
      var all := Walk(true, until, start, replies);
      all.items == start.items + rest.items && ExitOf(all) == rest.exit && all.spawned == start.spawned
    decreases |replies|
  {
    if replies != [] {
      var p := Answer(true, until, start, replies[0]);
      WalkOn(true, until, start, replies);
      if p.Over? {
        WalkOver(true, until, p, replies[1..]);
      } else {
        SerialIsWalk(until, p, replies[1..]);
      }
    }
  }

  /** In parallel mode one goroutine is started for each new pulse, in order. */
  lemma {:induction false} ParallelIsWalk(until: int, start: Progress, replies: seq<Reply>)
    requires start.Going?
    ensures var all := Walk(false, until, start, replies);
      all.spawned == start.spawned + Arrivals(start.current, until, replies) && all.items == start.items
    decreases |replies|
  {
    if replies != [] {
      var p := Answer(false, until, start, replies[0]);
      WalkOn(false, until, start, replies);
      if p.Over? {
        WalkOver(false, until, p, replies[1..]);
      } else {
        ParallelIsWalk(until, p, replies[1..]);
      }
    }
  }

  // ---------------------------------------------------------------------
  // The extractor object
  // ---------------------------------------------------------------------

  class PlatformExtractor {
    const maxWorkers: int
    var workers: int
    var channel: seq<Item>
    var running: seq<Fetch>  // goroutines started and not finished

    constructor (maxWorkers: int)
      ensures this.maxWorkers == maxWorkers && workers == 0 && channel == [] && running == []
    {
      this.maxWorkers := maxWorkers;
      workers, channel, running := 0, [], [];
    }

    method TakeWorker() returns (taken: bool)
      modifies this`workers
      ensures taken <==> old(workers) < maxWorkers
      ensures workers == if taken then old(workers) + 1 else old(workers)
    {
      workers := workers + 1;
      if workers > maxWorkers {
        workers := workers - 1;
        return false;
      }
      return true;
    }

    method FreeWorker()
      modifies this`workers
      ensures workers == old(workers) - 1
    {
      workers := workers - 1;
    }

    /** The inner loop over one stream. */
    method ReadStream(pulse: int, rs: seq<Response>, acc: seq<Rec>) returns (got: seq<Rec>, marker: Option<int>)
      ensures got == acc + Portion(pulse, rs) && marker == Marker(pulse, rs)
    {
      got, marker := acc, None;
      var i := 0;
      while i < |rs|
        invariant 0 <= i <= |rs|
        invariant acc + Portion(pulse, rs) == got + Portion(pulse, rs[i..])
        invariant Marker(pulse, rs) == Marker(pulse, rs[i..])
      {
        assert rs[i..][0] == rs[i] && rs[i..][1..] == rs[i + 1..];
        if IsMarker(pulse, rs[i]) {
          return got, Some(MarkerOf(rs[i]));
        }
        ghost var rest := Portion(pulse, rs[i + 1..]);
        assert got + ([rs[i].record] + rest) == (got + [rs[i].record]) + rest;
        got := got + [rs[i].record];
        i := i + 1;
      }
    }

    /** The loop over requests, without the deferred release. */
    method Request(pulse: int, script: seq<Attempt>) returns (next: Option<int>)
      modifies this`channel
      ensures channel == old(channel) + Retrieve(pulse, script, []).pushed
      ensures next == Retrieve(pulse, script, []).next
    {
      var records: seq<Rec> := [];
      next := None;
      var i := 0;
      while i < |script|
        invariant 0 <= i <= |script| && channel == old(channel) && next == None
        invariant Retrieve(pulse, script, []) == Retrieve(pulse, script[i..], records)
      {
        assert script[i..][0] == script[i] && script[i..][1..] == script[i + 1..];
        match script[i] {
          case VersionRefused =>
            return None;
          case NotOpened =>
          case Opened(rs, end) =>
            var marker;
            records, marker := ReadStream(pulse, rs, records);
            if marker.Some? {
              channel := channel + [Item(pulse, records)];
              return marker;
            }
            if end == NoData {
              return None;
            }
        }
        i := i + 1;
      }
    }

    /** The slot taken by the caller is released on every path. */
    method RetrieveRecords(pulse: int, mainThread: bool, skipRequest: bool, script: seq<Attempt>)
      returns (next: Option<int>)
      modifies this`workers, this`channel
      ensures workers == if mainThread then old(workers) else old(workers) - 1
      ensures skipRequest ==> channel == old(channel) + [Item(pulse, [])] && next == None
      ensures !skipRequest ==>
        channel == old(channel) + Retrieve(pulse, script, []).pushed && next == Retrieve(pulse, script, []).next
    {
      if skipRequest {
        channel := channel + [Item(pulse, [])];
        next := None;
      } else {
        next := Request(pulse, script);
      }
      if !mainThread {
        FreeWorker();
      }
    }

    /** One new pulse of a serial reload; the slot taken for it is released. */
    method TakePulse(next: Option<int>, pulse: int, script: seq<Attempt>) returns (after: Option<int>)
      modifies this`workers, this`channel
      ensures workers == old(workers) - 1
      ensures channel == old(channel) + FetchOrSkip(next, pulse, script).pushed
      ensures after == FetchOrSkip(next, pulse, script).next
    {
      if next.None? || pulse >= next.value {
        after := RetrieveRecords(pulse, false, false, script);
      } else {
        var _ := RetrieveRecords(pulse, false, true, script);
        after := next;
      }
    }

    /** A new pulse: fetched at once in serial mode, otherwise left to a goroutine with the slot. */
    method HandlePulse(until: int, next: Option<int>, pulse: int, script: seq<Attempt>) returns (after: Option<int>)
      modifies this
      ensures if Serialised(until)
        then
          && workers == old(workers) - 1 && running == old(running)
          && channel == old(channel) + FetchOrSkip(next, pulse, script).pushed
          && after == FetchOrSkip(next, pulse, script).next
        else
          && workers == old(workers) && channel == old(channel) && after == next
          && running == old(running) + [Fetch(pulse, IsMain(until))]
    {
      if !IsMain(until) && maxWorkers <= 3 {
        after := TakePulse(next, pulse, script);
      } else {
        running := running + [Fetch(pulse, IsMain(until))];
        after := next;
      }
    }

    /** A goroutine runs to its end: the slot handed to it is released. */
    method FinishFetch(i: nat, script: seq<Attempt>) returns (next: Option<int>)
      requires i < |running|
      modifies this
      ensures running == old(running[..i] + running[i + 1..])
      ensures workers == if old(running[i].mainThread) then old(workers) else old(workers) - 1
      ensures channel == old(channel) + Retrieve(old(running[i].pulse), script, []).pushed
    {
      var f := running[i];
      running := running[..i] + running[i + 1..];
      next := RetrieveRecords(f.pulse, f.mainThread, false, script);
    }

    /**
     The spin for a slot: `wakeups` are the changes other threads make to the
     counter during each sleep.
     */
    method AwaitWorker(wakeups: seq<int>, start: nat) returns (taken: bool, used: nat)
      requires start <= |wakeups|
      modifies this`workers
      ensures start <= used <= |wakeups| && (!taken ==> used == |wakeups|)
      ensures var level := old(workers) - Sum(wakeups[..start]);
        && workers == level + Sum(wakeups[..used]) + (if taken then 1 else 0)
        && (taken <==> level + Sum(wakeups[..used]) < maxWorkers)
        && FullWhile(level, wakeups, start, used)
    {
      used := start;
      while true
        invariant start <= used <= |wakeups|
        invariant workers - Sum(wakeups[..used]) == old(workers) - Sum(wakeups[..start])
        invariant FullWhile(old(workers) - Sum(wakeups[..start]), wakeups, start, used)
        decreases |wakeups| - used
      {
        taken := TakeWorker();
        if taken || used == |wakeups| {
          return;
        }
        assert wakeups[..used + 1][..used] == wakeups[..used];
        workers := workers + wakeups[used];
        used := used + 1;
      }
    }

    /** The fields after the progress `p` of one loop that has `held` slots of its own. */
    ghost predicate Tracks(p: Progress, main: bool, base: seq<Item>, queue: seq<Fetch>, level: int, held: nat)
      reads this
    {
      && channel == base + p.items && running == queue + Fetches(p.spawned, main)
      && workers == level + if main then 0 else |p.spawned| + held
    }

    /** The rest of one round, once the slot is taken and the reply is there. */
    method HandleReply(until: int, current: int, next: Option<int>, r: Reply,
                       ghost p: Progress, ghost base: seq<Item>, ghost queue: seq<Fetch>, ghost level: int)
      returns (exit: Option<Exit>, current': int, next': Option<int>)
      requires p.Going? && p.current == current && p.next == next && Tracks(p, IsMain(until), base, queue, level, 1)
      modifies this
      ensures var p' := Answer(Serialised(until), until, p, r);
        && Tracks(p', IsMain(until), base, queue, level, if exit == Some(VersionExit) then 1 else 0)
        && (p'.Over? <==> exit == Some(ExitOf(p')))
        && (p'.Going? ==> exit == None && p'.current == current' && p'.next == next')
    {
      var main := IsMain(until);
      exit, current', next' := None, current, next;
      if r.VersionError? {
        exit := Some(VersionExit);
      } else if !r.NextPulse? || r.pulse == current {
        if !main {
          FreeWorker();
        }
      } else {
        next' := HandlePulse(until, next, r.pulse, r.script);
        current' := r.pulse;
        if !main && r.pulse >= until {
          exit := Some(Reached);
        }
      }
    }

    /**
     The pulse loop of the main thread or a reload, in either mode, from any
     counter.  The counter changes by what others did meanwhile, by one slot
     for each goroutine started, and by the slot a version error keeps.
     */
    method RetrievePulses(from: int, until: int, replies: seq<Reply>, wakeups: seq<int>)
      returns (exit: Exit, seen: nat, used: nat)
      modifies this
      ensures seen <= |replies| && used <= |wakeups| && (IsMain(until) ==> used == 0)
      ensures var p := Walk(Serialised(until), until, Going(from, None, [], []), replies[..seen]);
        && channel == old(channel) + p.items
        && running == old(running) + Fetches(p.spawned, IsMain(until))
        && exit == (if p.Over? then p.exit else if seen == |replies| then Cancelled else Blocked)
        && workers == old(workers) + Sum(wakeups[..used]) +
             (if IsMain(until) then 0 else |p.spawned| + if exit == VersionExit then 1 else 0)
      ensures exit == Blocked ==> !IsMain(until) && used == |wakeups| && workers >= maxWorkers
      ensures EndIsRight(from, until, replies, seen, exit)
      ensures until > 0 && maxWorkers <= 3 ==> running == old(running)
      ensures until <= 0 || maxWorkers > 3 ==> channel == old(channel)
      ensures until <= 0 ==> workers == old(workers)
    {
      var main := IsMain(until);
      var current, next := from, Option<int>.None;
      ghost var p := Going(from, None, [], []);
      ghost var first, base, queue, level := p, channel, running, workers;
      seen, used := 0, 0;
      while seen < |replies|
        invariant seen <= |replies| && used <= |wakeups| && (main ==> used == 0)
        invariant p == Walk(Serialised(until), until, first, replies[..seen])
        invariant p.Going? && p.current == current && p.next == next
        invariant seen > 0 ==> Walked(Serialised(until), until, from, replies[..seen - 1]).Going?
        invariant Tracks(p, main, base, queue, level + Sum(wakeups[..used]), 0)
      {
        if !main {
          var taken;
          taken, used := AwaitWorker(wakeups, used);
          if !taken {
            Finish(from, until, replies, seen, Blocked);
            return Blocked, seen, used;
          }
        }
        var r := replies[seen];
        seen := seen + 1;
        assert replies[..seen][..seen - 1] == replies[..seen - 1];
        var over;
        over, current, next :=
          HandleReply(until, current, next, r, p, base, queue, level + Sum(wakeups[..used]));
        p := Answer(Serialised(until), until, p, r);
        if over.Some? {
          Finish(from, until, replies, seen, over.value);
          return over.value, seen, used;
        }
      }
      assert replies[..seen] == replies;
      Finish(from, until, replies, seen, Cancelled);
      return Cancelled, seen, used;
    }

    /** What follows for the result of the loop. */
    lemma Finish(from: int, until: int, replies: seq<Reply>, seen: nat, exit: Exit)
      requires seen <= |replies|
      requires seen > 0 ==> Walked(Serialised(until), until, from, replies[..seen - 1]).Going?
      requires var p := Walked(Serialised(until), until, from, replies[..seen]);
        if p.Over? then exit == p.exit else exit == Cancelled || exit == Blocked
      ensures EndIsRight(from, until, replies, seen, exit)
      ensures var p := Walked(Serialised(until), until, from, replies[..seen]);
        if until > 0 && maxWorkers <= 3 then p.spawned == [] else p.items == []
    {
      RightEnd(Serialised(until), until, from, replies, seen, exit);
      WalkMode(Serialised(until), until, from, replies[..seen]);
    }

    /** The counter is at the maximum after each of the sleeps from `start` up to `used`. */
    ghost predicate FullWhile(level: int, wakeups: seq<int>, start: nat, used: nat) {
      used <= |wakeups| && forall k :: start <= k < used ==> level + Sum(wakeups[..k]) >= maxWorkers
    }

    /** The serial mode is for reloads with few workers. */
    function Serialised(until: int): bool {
      !IsMain(until) && maxWorkers <= 3
    }
  }

  datatype Fetch = Fetch(pulse: int, mainThread: bool)

  function Fetches(pulses: seq<int>, mainThread: bool): seq<Fetch> {
    seq(|pulses|, i requires 0 <= i < |pulses| => Fetch(pulses[i], mainThread))
  }

  function Sum(s: seq<int>): int {
    if s == [] then 0 else Sum(s[..|s| - 1]) + s[|s| - 1]
  }
}
