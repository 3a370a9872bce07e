/**
 * One pass of the main loop (main-test.py lines 475-492): walk the fetched
 * updates in order, skip every id at or below the watermark, advance the
 * watermark before handling, and keep the handler's history unless it
 * raised.  Fetching, the `while True` and the sleep are outside the model:
 * a batch is given, and one call of `PollCycle` is one pass.
 */
module DispatchLoop {
  import opened Wrappers
  import opened CompletionRequest
  import opened UpdateHandler

  /** One update of the fetched batch, with what the network will do while it is handled. */
  datatype Fetched = Fetched(update: Update, reply: Reply, delivery: Delivery)

  /** `update["update_id"]`. */
  function Id(f: Fetched): int {
    f.update.updateId
  }

  /**
   * The loop's state: the watermark `last_update_id` and the transcript
   * `conversation_history`, with the ids handled so far and the texts sent
   * so far recorded alongside.
   */
  datatype LoopState = LoopState(watermark: int, history: string, handled: seq<int>, outbox: seq<string>)

  /**
   * The update handler the loop calls.  The loop runs `HandleMessage`; its
   * properties below hold whatever the handler does, so they are stated for
   * any handler.
   */
  type Handler = (Update, string, Reply, Delivery) -> Handling

  /** Lines 484-492 for one update. */
  function Step(s: LoopState, f: Fetched, handle: Handler): LoopState {
    if Id(f) > s.watermark then
      var h := handle(f.update, s.history, f.reply, f.delivery);
      LoopState(Id(f), if h.result.Done? then h.result.history else s.history,
                s.handled + [Id(f)], s.outbox + Posts(h))
    else s
  }

  /** Lines 483-492: the updates of one batch, in order. */
  function Cycle(s: LoopState, batch: seq<Fetched>, handle: Handler): LoopState
    decreases |batch|
  {
    if batch == [] then s
    else Step(Cycle(s, batch[..|batch| - 1], handle), batch[|batch| - 1], handle)
  }

  predicate Increasing(ids: seq<int>) {
    forall i, j :: 0 <= i < j < |ids| ==> ids[i] < ids[j]
  }

  /** The ids handled so far are strictly increasing and none is above the watermark. */
  predicate Inv(s: LoopState) {
    Increasing(s.handled) && forall k :: 0 <= k < |s.handled| ==> s.handled[k] <= s.watermark
  }

  /**
   * One update: an id at or below the watermark changes nothing; a newer id
   * becomes the watermark and is handled, and the history is replaced by the
   * handler's only when the handler returns.
   */
  lemma {:induction false} StepSpec(s: LoopState, f: Fetched, handle: Handler)
    ensures Id(f) <= s.watermark ==> Step(s, f, handle) == s
    ensures Id(f) > s.watermark ==>
              var h := handle(f.update, s.history, f.reply, f.delivery);
              && Step(s, f, handle).watermark == Id(f)
              && Step(s, f, handle).handled == s.handled + [Id(f)]
              && (h.result.Threw? ==> Step(s, f, handle).history == s.history)
              && (h.result.Done? ==> Step(s, f, handle).history == h.result.history)
  {
  }

  /** A newer id: the new state in terms of what the handler returns. */
  lemma {:induction false} StepTaken(s: LoopState, f: Fetched, handle: Handler)
    requires Id(f) > s.watermark
    ensures var h := handle(f.update, s.history, f.reply, f.delivery);
            Step(s, f, handle)
              == LoopState(Id(f), if h.result.Done? then h.result.history else s.history,
                           s.handled + [Id(f)], s.outbox + Posts(h))
  {
  }

  /** One update can only raise the watermark, and appends its id to the handled ones exactly when it does. */
  lemma {:induction false} StepPreservesInv(s: LoopState, f: Fetched, handle: Handler)
    requires Inv(s)
    ensures Inv(Step(s, f, handle))
  {
    StepSpec(s, f, handle);
    if Id(f) > s.watermark {
      var t := Step(s, f, handle);
      assert t.handled == s.handled + [Id(f)] && t.watermark == Id(f);
      forall k | 0 <= k < |t.handled| ensures t.handled[k] <= t.watermark {
        if k < |s.handled| { assert t.handled[k] == s.handled[k]; }
      }
    }
  }

  /** The watermark after a batch, computed from the ids alone. */
  function WatermarkAfter(watermark: int, batch: seq<Fetched>): int
    decreases |batch|
  {
    if batch == [] then watermark
    else
      var w := WatermarkAfter(watermark, batch[..|batch| - 1]);
      if Id(batch[|batch| - 1]) > w then Id(batch[|batch| - 1]) else w
  }

  /** The ids a batch hands to the handler, computed from the ids alone. */
  function Accepted(watermark: int, batch: seq<Fetched>): seq<int>
    decreases |batch|
  {
    if batch == [] then []
    else
      var w := WatermarkAfter(watermark, batch[..|batch| - 1]);
      Accepted(watermark, batch[..|batch| - 1])
        + (if Id(batch[|batch| - 1]) > w then [Id(batch[|batch| - 1])] else [])
  }

  /** Whatever the handler does, the watermark and the handled ids follow the ids alone. */
  lemma {:induction false} CycleIds(s: LoopState, batch: seq<Fetched>, handle: Handler)
    ensures Cycle(s, batch, handle).watermark == WatermarkAfter(s.watermark, batch)
    ensures Cycle(s, batch, handle).handled == s.handled + Accepted(s.watermark, batch)
    decreases |batch|
  {
    if batch != [] {
      CycleIds(s, batch[..|batch| - 1], handle);
    }
  }

  /** The handler runs for the update at `j` when its id is above the old watermark and every earlier id. */
  predicate NewHigh(watermark: int, batch: seq<Fetched>, j: int)
    requires 0 <= j < |batch|
  {
    Id(batch[j]) > watermark && forall i :: 0 <= i < j ==> Id(batch[i]) < Id(batch[j])
  }

  /** The watermark after a batch is the largest of the old watermark and the batch's ids. */
  lemma {:induction false} WatermarkIsMax(watermark: int, batch: seq<Fetched>)
    ensures var w := WatermarkAfter(watermark, batch);
            && w >= watermark
            && (forall j :: 0 <= j < |batch| ==> Id(batch[j]) <= w)
            && (w == watermark || exists j :: 0 <= j < |batch| && Id(batch[j]) == w)
    decreases |batch|
  {
    if batch != [] {
      var init := batch[..|batch| - 1];
      WatermarkIsMax(watermark, init);
      var w0 := WatermarkAfter(watermark, init);
      var w := WatermarkAfter(watermark, batch);
      forall j | 0 <= j < |batch| ensures Id(batch[j]) <= w {
        if j < |init| { assert batch[j] == init[j]; }
      }
      if w != watermark && w == w0 {
        var j :| 0 <= j < |init| && Id(init[j]) == w0;
        assert batch[j] == init[j];
      }
    }
  }

  /**
   * The accepted ids are strictly increasing, all above the old watermark,
   * and are exactly the ids of the updates above the old watermark and
   * above every id before them in the batch.
   */
  lemma {:induction false} AcceptedSpec(watermark: int, batch: seq<Fetched>)
    ensures var a := Accepted(watermark, batch);
            && Increasing(a)
            && (forall k :: 0 <= k < |a| ==> watermark < a[k] <= WatermarkAfter(watermark, batch))
            && (forall id :: id in a <==>
                  exists j :: 0 <= j < |batch| && NewHigh(watermark, batch, j) && Id(batch[j]) == id)
    decreases |batch|
  {
    if batch != [] {
      var init := batch[..|batch| - 1];
      var f := batch[|batch| - 1];
      AcceptedSpec(watermark, init);
      WatermarkIsMax(watermark, init);
      var w0 := WatermarkAfter(watermark, init);
      var a0 := Accepted(watermark, init);
      var a := Accepted(watermark, batch);
      forall j | 0 <= j < |init| ensures NewHigh(watermark, batch, j) == NewHigh(watermark, init, j) {
        assert batch[j] == init[j];
        forall i | 0 <= i < j ensures batch[i] == init[i] { }
      }
      assert NewHigh(watermark, batch, |init|) <==> Id(f) > w0 by {
        if Id(f) > w0 {
          forall i | 0 <= i < |init| ensures Id(batch[i]) < Id(f) {
            assert batch[i] == init[i];
          }
        } else if Id(f) > watermark {
          var j :| 0 <= j < |init| && Id(init[j]) == w0;
          assert batch[j] == init[j];
        }
      }
      forall id ensures id in a <==>
                  exists j :: 0 <= j < |batch| && NewHigh(watermark, batch, j) && Id(batch[j]) == id
      {
        if id in a {
          if id in a0 {
            var j :| 0 <= j < |init| && NewHigh(watermark, init, j) && Id(init[j]) == id;
            assert batch[j] == init[j];
          } else {
            assert NewHigh(watermark, batch, |init|) && Id(batch[|init|]) == id;
          }
        }
      }
    }
  }

  /**
   * A batch keeps the ids handled before it and appends, in increasing
   * order, exactly the ids of the updates that are above the old watermark
   * and above every id before them; the watermark ends at the largest of
   * the old watermark and the batch's ids, so it never decreases.
   */
  lemma {:induction false} CycleHandles(s: LoopState, batch: seq<Fetched>, handle: Handler)
    ensures var c := Cycle(s, batch, handle);
            && c.watermark >= s.watermark
            && (forall j :: 0 <= j < |batch| ==> Id(batch[j]) <= c.watermark)
            && |s.handled| <= |c.handled| && c.handled[..|s.handled|] == s.handled
            && Increasing(c.handled[|s.handled|..])
            && (forall k :: |s.handled| <= k < |c.handled| ==> s.watermark < c.handled[k] <= c.watermark)
            && (forall id :: id in c.handled[|s.handled|..] <==>
                  exists j :: 0 <= j < |batch| && NewHigh(s.watermark, batch, j) && Id(batch[j]) == id)
  {
    CycleIds(s, batch, handle);
    WatermarkIsMax(s.watermark, batch);
    AcceptedSpec(s.watermark, batch);
    var c := Cycle(s, batch, handle);
    var a := Accepted(s.watermark, batch);
    assert c.handled[|s.handled|..] == a;
    forall k | |s.handled| <= k < |c.handled| ensures s.watermark < c.handled[k] <= c.watermark {
      assert c.handled[k] == a[k - |s.handled|];
    }
  }

  /** A batch preserves the invariant. */
  lemma {:induction false} CyclePreservesInv(s: LoopState, batch: seq<Fetched>, handle: Handler)
    requires Inv(s)
    ensures Inv(Cycle(s, batch, handle))
  {
    var c := Cycle(s, batch, handle);
    CycleHandles(s, batch, handle);
    var n := |s.handled|;
    forall i, j | 0 <= i < j < |c.handled| ensures c.handled[i] < c.handled[j] {
      if j < n {
        assert c.handled[i] == s.handled[i] && c.handled[j] == s.handled[j];
      } else if i < n {
        assert c.handled[i] == s.handled[i];
      } else {
        assert c.handled[i] == c.handled[n..][i - n] && c.handled[j] == c.handled[n..][j - n];
      }
    }
    forall k | 0 <= k < |c.handled| ensures c.handled[k] <= c.watermark {
      if k < n { assert c.handled[k] == s.handled[k]; }
    }
  }

  /**
   * The upshot for replayed updates: across two polls (the second typically
   * re-delivering the boundary update), no id is handled twice, and nothing
   * handled in the first poll is handled again in the second.
   */
  lemma {:induction false} NoUpdateHandledTwice(s: LoopState, first: seq<Fetched>, second: seq<Fetched>, handle: Handler)
    requires Inv(s)
    ensures var c1 := Cycle(s, first, handle);
            var c2 := Cycle(c1, second, handle);
            && (forall i, j :: 0 <= i < j < |c2.handled| ==> c2.handled[i] != c2.handled[j])
            && |c1.handled| <= |c2.handled|
            && (forall id :: id in c1.handled ==> id !in c2.handled[|c1.handled|..])
  {
    var c1 := Cycle(s, first, handle);
    var c2 := Cycle(c1, second, handle);
    CyclePreservesInv(s, first, handle);
    CyclePreservesInv(c1, second, handle);
    CycleHandles(c1, second, handle);
    forall id | id in c1.handled ensures id !in c2.handled[|c1.handled|..] {
      var k :| 0 <= k < |c1.handled| && c1.handled[k] == id;
      assert id <= c1.watermark;
    }
  }

  /**
   * Consecutive polls that both deliver the boundary update `f`: the first
   * handles it and moves the watermark to its id; the second skips it and
   * handles only the newer `g`.
   */
  lemma {:induction false} ReplayedBoundary(s: LoopState, f: Fetched, g: Fetched, handle: Handler)
    requires s.watermark < Id(f) < Id(g)
    ensures var c1 := Cycle(s, [f], handle);
            var c2 := Cycle(c1, [f, g], handle);
            && c1.watermark == Id(f) && c1.handled == s.handled + [Id(f)]
            && c2.watermark == Id(g) && c2.handled == s.handled + [Id(f), Id(g)]
  {
    var c1 := Cycle(s, [f], handle);
    CycleIds(s, [f], handle);
    CycleIds(c1, [f, g], handle);
    assert [f, g][..1] == [f];
    assert [f][..0] == [];
    assert WatermarkAfter(s.watermark, [f]) == Id(f);
    assert Accepted(s.watermark, [f]) == [Id(f)];
    assert WatermarkAfter(Id(f), [f]) == Id(f) && Accepted(Id(f), [f]) == [];
    assert Accepted(Id(f), [f, g]) == [Id(g)];
    assert c1.handled + [Id(g)] == s.handled + [Id(f), Id(g)];
  }

  /**
   * The main loop's own state: `last_update_id` and `conversation_history`,
   * which each pass updates in place, with the ids handled and the texts
   * sent since start-up kept as ghost state.
   */
  class Dispatcher {
    var lastUpdateId: int
    var history: string
    ghost var handled: seq<int>
    ghost var outbox: seq<string>

    ghost function State(): LoopState
      reads this
    {
      LoopState(lastUpdateId, history, handled, outbox)
    }

    ghost predicate Valid()
      reads this
    {
      Inv(State())
    }

    /** Lines 475-476: an empty transcript and watermark 0. */
    constructor ()
      ensures Valid() && State() == LoopState(0, "", [], [])
    {
      lastUpdateId := 0;
      history := "";
      handled := [];
      outbox := [];
    }

    /**
     * Lines 484-492 for one update: an id above the watermark becomes the
     * watermark before the handler runs, and the handler's history is kept
     * unless it raised.
     */
    method Dispatch(f: Fetched)
      requires Valid()
      modifies this
      ensures Valid()
      ensures State() == Step(old(State()), f, HandleMessage)
    {
      ghost var s := State();
      StepPreservesInv(s, f, HandleMessage);
      if f.update.updateId > lastUpdateId {
        StepTaken(s, f, HandleMessage);
        lastUpdateId := f.update.updateId;
        var h := HandleMessage(f.update, history, f.reply, f.delivery);
        if h.result.Done? {
          history := h.result.history;
        }
        handled := handled + [f.update.updateId];
        outbox := outbox + Posts(h);
      }
    }

    /**
     * One pass over a fetched batch.  The watermark never decreases, and
     * every id handled in this pass is above the watermark it started with.
     */
    method PollCycle(batch: seq<Fetched>)
      requires Valid()
      modifies this
      ensures Valid()
      ensures State() == Cycle(old(State()), batch, HandleMessage)
      ensures lastUpdateId >= old(lastUpdateId)
      ensures |old(handled)| <= |handled| && handled[..|old(handled)|] == old(handled)
      ensures forall k :: |old(handled)| <= k < |handled| ==> handled[k] > old(lastUpdateId)
    {
      var i := 0;
      while i < |batch|
        invariant 0 <= i <= |batch|
        invariant Valid()
        invariant State() == Cycle(old(State()), batch[..i], HandleMessage)
      {
        assert batch[..i + 1][..i] == batch[..i];
        Dispatch(batch[i]);
        i := i + 1;
      }
      assert batch[..|batch|] == batch;
      CycleHandles(old(State()), batch, HandleMessage);
    }
  }
}
