/**
 * The search loop of `decrypt_pdf` (cracker.py lines 34-65) and the outcome
 * mapping of `try_password` (lines 24-31).
 *
 * The worker pool is not modelled: a dispatched candidate is simply remembered in
 * the in-flight window (the `futures` dictionary), and the order in which
 * `as_completed` surfaces finished futures is an arbitrary choice among the
 * futures of the current snapshot. The oracle is the function `open`, giving the
 * outcome `pikepdf.open` would have for a candidate on this document.
 */
module Scheduler {
  import opened Options
  import opened Sequences

  /** What opening the document with one password does. */
  datatype Outcome =
    | Opened                  // pikepdf.open returned a document
    | WrongPassword           // it raised PasswordError
    | Failed(cause: string)   // it raised any other Exception

  /** `try_password` (cracker.py lines 24-31): the password on success, None for either kind of failure. */
  function TryPassword(password: string, outcome: Outcome): (r: Option<string>)
    ensures r != None <==> outcome == Opened
    ensures r != None ==> r == Some(password)
    ensures outcome.WrongPassword? || outcome.Failed? ==> r == None
  {
    match outcome
    case Opened => Some(password)
    case WrongPassword => None
    case Failed(_) => None
  }

  /** Python truthiness of an `Optional[str]` result (`if result:`, line 56): None and '' are false. */
  predicate Truthy(r: Option<string>)
  {
    r.Some? && r.value != []
  }

  /** A candidate whose check makes the search stop: it opens the document and is not ''. */
  predicate Stops(open: string -> Outcome, password: string)
  {
    Truthy(TryPassword(password, open(password)))
  }

  /** The position of the first candidate in source order that stops the search, if any. */
  function FirstStop(source: seq<string>, open: string -> Outcome): (r: Option<nat>)
    ensures r.Some? ==> r.value < |source| && Stops(open, source[r.value])
    ensures r.Some? ==> forall i :: 0 <= i < r.value ==> !Stops(open, source[i])
    ensures r.None? ==> forall i :: 0 <= i < |source| ==> !Stops(open, source[i])
  {
    if source == [] then None
    else if Stops(open, source[0]) then Some(0)
    else
      match FirstStop(source[1..], open)
      case None => None
      case Some(i) => Some(i + 1)
  }

  /**
   * What holds of the search state between two completions: futures are numbered
   * by dispatch, each still carries its own candidate, every dispatched future is
   * either in flight or observed exactly once, no observed completion stopped the
   * search, and the window is bounded by maxWorkers and full while the iterator
   * still has candidates.
   */
  ghost predicate Searching(source: seq<string>, open: string -> Outcome, maxWorkers: nat,
                            next: nat, futures: map<nat, string>, observed: seq<nat>, window: seq<nat>)
  {
    && next <= |source|
    && (forall t :: t in futures ==> t < next && futures[t] == source[t])
    && |futures| <= maxWorkers
    && (next < |source| ==> |futures| == maxWorkers)
    && |observed| + |futures| == next
    && |window| == |observed| && (forall i :: 0 <= i < |window| ==> 1 <= window[i] <= maxWorkers)
    && Distinct(observed)
    && (forall i :: 0 <= i < |observed| ==> observed[i] < next && observed[i] !in futures)
    && (forall t :: 0 <= t < next ==> t in futures || t in observed)
    && (forall i :: 0 <= i < |observed| ==> !Stops(open, source[observed[i]]))
    && (maxWorkers == 1 ==> forall i :: 0 <= i < |observed| ==> observed[i] == i)
  }

  /** With one worker, the only future in flight is the one after all observed ones. */
  lemma SingleWorkerNext(source: seq<string>, open: string -> Outcome,
                         next: nat, futures: map<nat, string>, observed: seq<nat>, window: seq<nat>, t: nat)
    requires Searching(source, open, 1, next, futures, observed, window) && t in futures
    ensures t == |observed|
  {
    forall i | 0 <= i < |observed| ensures i !in futures {
      assert observed[i] == i && observed[i] !in futures;
    }
    assert t < |observed| + 1;
  }

  /**
   * Taking the completion of future t (pop, one progress update) when it does not
   * stop the search, then refilling from the iterator if it has more, is again a
   * search state.
   */
  lemma ObserveAndRefill(source: seq<string>, open: string -> Outcome, maxWorkers: nat,
                         next: nat, futures: map<nat, string>, observed: seq<nat>, window: seq<nat>, t: nat)
    requires Searching(source, open, maxWorkers, next, futures, observed, window)
    requires t in futures && !Stops(open, futures[t])
    ensures var popped := futures - {t};
            var next' := if next < |source| then next + 1 else next;
            var futures' := if next < |source| then popped[next := source[next]] else popped;
            Searching(source, open, maxWorkers, next', futures', observed + [t], window + [|futures|])
  {
    var popped := futures - {t};
    assert popped.Keys == futures.Keys - {t};
    var observed' := observed + [t];
    if maxWorkers == 1 {
      SingleWorkerNext(source, open, next, futures, observed, window, t);
    }
    if next < |source| {
      assert next !in popped;
    }
    forall u | 0 <= u < next ensures u in popped || u in observed' {
      if u !in popped && u != t {
        assert u in observed;
      }
    }
  }

  /**
   * Dispatch and progress accounting at the end of a search: `dispatched`
   * candidates were pulled, `progress` completions were taken (each a distinct
   * dispatched future), every window held between 1 and maxWorkers futures, and
   * fewer than maxWorkers futures were left running.
   */
  ghost predicate Accounted(source: seq<string>, maxWorkers: nat, progress: nat, dispatched: nat,
                            observed: seq<nat>, window: seq<nat>)
  {
    && dispatched <= |source| && progress == |observed| <= dispatched
    && dispatched < progress + maxWorkers
    && Distinct(observed) && (forall i :: 0 <= i < |observed| ==> observed[i] < dispatched)
    && |window| == progress && (forall i :: 0 <= i < |window| ==> 1 <= window[i] <= maxWorkers)
  }

  /**
   * Soundness: every completion but the last failed to stop the search, and a
   * result is the last observed candidate, which opened the document and is not ''.
   */
  ghost predicate Sound(source: seq<string>, open: string -> Outcome,
                        found: Option<string>, observed: seq<nat>)
    requires forall i :: 0 <= i < |observed| ==> observed[i] < |source|
  {
    && (forall i :: 0 <= i < |observed| - 1 ==> !Stops(open, source[observed[i]]))
    && (found.Some? ==> |observed| > 0 && found.value == source[observed[|observed| - 1]])
    && (found.Some? ==> found.value != [] && open(found.value) == Opened)
  }

  /**
   * Completeness: no result means every candidate was pulled and checked in vain,
   * and that happens exactly when no candidate stops the search.
   */
  ghost predicate Complete(source: seq<string>, open: string -> Outcome,
                           found: Option<string>, progress: nat, dispatched: nat)
  {
    && (found.None? ==> dispatched == progress == |source|)
    && (found.None? <==> forall i :: 0 <= i < |source| ==> !Stops(open, source[i]))
  }

  /**
   * With a single worker, completions come in source order and the result is the
   * first stopping candidate in source order, after one update per candidate up to it.
   */
  ghost predicate SingleWorkerOrder(source: seq<string>, open: string -> Outcome, maxWorkers: nat,
                                    found: Option<string>, progress: nat, observed: seq<nat>)
  {
    maxWorkers == 1 ==>
      && (forall i :: 0 <= i < |observed| ==> observed[i] == i)
      && match FirstStop(source, open)
         case Some(i) => found == Some(source[i]) && progress == i + 1
         case None => found == None && progress == |source|
  }

  /** Everything `decrypt_pdf` promises about how a search ended. */
  ghost predicate Concluded(source: seq<string>, open: string -> Outcome, maxWorkers: nat,
                            found: Option<string>, progress: nat, dispatched: nat,
                            observed: seq<nat>, window: seq<nat>)
  {
    && Accounted(source, maxWorkers, progress, dispatched, observed, window)
    && Sound(source, open, found, observed)
    && Complete(source, open, found, progress, dispatched)
    && SingleWorkerOrder(source, open, maxWorkers, found, progress, observed)
  }

  /** The first stopping candidate in source order is the one every earlier candidate defers to. */
  lemma FirstStopAt(source: seq<string>, open: string -> Outcome, i: nat)
    requires i < |source| && Stops(open, source[i])
    requires forall j :: 0 <= j < i ==> !Stops(open, source[j])
    ensures FirstStop(source, open) == Some(i)
  {
  }

  /** Observing a stopping completion in a search state ends the search as promised. */
  lemma ConcludeStop(source: seq<string>, open: string -> Outcome, maxWorkers: nat,
                     next: nat, futures: map<nat, string>, observed: seq<nat>, window: seq<nat>, t: nat)
    requires Searching(source, open, maxWorkers, next, futures, observed, window) && maxWorkers >= 1
    requires t in futures && Stops(open, futures[t])
    ensures Concluded(source, open, maxWorkers, Some(futures[t]), |observed| + 1, next,
                      observed + [t], window + [|futures|])
  {
    var popped := futures - {t};
    assert popped.Keys == futures.Keys - {t};
    var observed' := observed + [t];
    assert forall i :: 0 <= i < |observed'| - 1 ==> observed'[i] == observed[i];
    assert Stops(open, source[t]);
    if maxWorkers == 1 {
      SingleWorkerNext(source, open, next, futures, observed, window, t);
      forall j | 0 <= j < t ensures !Stops(open, source[j]) {
        assert observed[j] == j;
      }
      FirstStopAt(source, open, t);
    }
  }

  /** A search state with nothing in flight has checked every candidate in vain. */
  lemma ConcludeExhausted(source: seq<string>, open: string -> Outcome, maxWorkers: nat,
                          next: nat, observed: seq<nat>, window: seq<nat>)
    requires Searching(source, open, maxWorkers, next, map[], observed, window) && maxWorkers >= 1
    ensures Concluded(source, open, maxWorkers, None, |observed|, next, observed, window)
  {
    forall i | 0 <= i < |source| ensures !Stops(open, source[i]) {
      assert i in observed;
      var k :| 0 <= k < |observed| && observed[k] == i;
    }
    if maxWorkers == 1 {
      assert FirstStop(source, open) == None;
    }
  }

  /**
   * Taking the completion of in-flight future t (lines 52-63): pop it, count it,
   * stop if its result is truthy, and otherwise dispatch the iterator's next
   * candidate, if it has one.
   */
  method TakeCompletion(source: seq<string>, open: string -> Outcome, maxWorkers: nat,
                        next: nat, futures: map<nat, string>, progress: nat,
                        ghost observed: seq<nat>, ghost window: seq<nat>, t: nat)
    returns (found: Option<string>, next': nat, futures': map<nat, string>, progress': nat,
             ghost observed': seq<nat>, ghost window': seq<nat>)
    requires maxWorkers >= 1 && t in futures && progress == |observed|
    requires Searching(source, open, maxWorkers, next, futures, observed, window)
    ensures progress' == progress + 1 == |observed'|
    ensures observed' == observed + [t] && window' == window + [|futures|]
    ensures found.Some? <==> Stops(open, futures[t])
    ensures found.Some? ==> found == Some(futures[t]) && next' == next && futures' == futures - {t}
    ensures found.None? ==> next' == (if next < |source| then next + 1 else next)
    ensures found.None? ==> futures' == if next < |source| then (futures - {t})[next := source[next]]
                                        else futures - {t}
    ensures futures.Keys - {t} <= futures'.Keys
    ensures |source| - next' + |futures'| + 1 == |source| - next + |futures|
    ensures found.None? ==> Searching(source, open, maxWorkers, next', futures', observed', window')
    ensures found.Some? ==> Concluded(source, open, maxWorkers, found, progress', next', observed', window')
  {
    var pwd := futures[t];                         // line 52
    futures' := futures - {t};
    var result := TryPassword(pwd, open(pwd));     // line 53
    progress' := progress + 1;                     // line 54
    observed', window' := observed + [t], window + [|futures|];
    next' := next;
    if Truthy(result) {                            // lines 56-58
      ConcludeStop(source, open, maxWorkers, next, futures, observed, window, t);
      found := result;
      return;
    }
    found := None;
    ObserveAndRefill(source, open, maxWorkers, next, futures, observed, window, t);
    assert futures'.Keys == futures.Keys - {t};
    if next < |source| {                           // lines 59-61
      futures' := futures'[next := source[next]];
      next' := next + 1;
    }
  }

  /**
   * Taking snapshot future t next keeps the pass's trace made of snapshot futures
   * taken at most once: the entries after `start` are in the snapshot and no
   * longer pending.
   */
  lemma SnapshotStep(start: seq<nat>, trace: seq<nat>, snapshot: set<nat>, pending: set<nat>, t: nat)
    requires t in pending && pending <= snapshot
    requires forall i :: |start| <= i < |trace| ==> trace[i] in snapshot && trace[i] !in pending
    ensures forall i :: |start| <= i < |trace + [t]| ==>
              (trace + [t])[i] in snapshot && (trace + [t])[i] !in pending - {t}
  {
    forall i | |start| <= i < |trace + [t]|
      ensures (trace + [t])[i] in snapshot && (trace + [t])[i] !in pending - {t}
    {
      if i < |trace| {
        assert (trace + [t])[i] == trace[i];
      }
    }
  }

  /**
   * One pass of `for future in as_completed(list(futures.keys()))` (lines 51-63):
   * completions of the snapshot's futures are taken in an arbitrary order; each
   * refill waits for the next pass.
   */
  method TakeRound(source: seq<string>, open: string -> Outcome, maxWorkers: nat,
                   next: nat, futures: map<nat, string>, progress: nat,
                   ghost observed: seq<nat>, ghost window: seq<nat>)
    returns (found: Option<string>, next': nat, futures': map<nat, string>, progress': nat,
             ghost observed': seq<nat>, ghost window': seq<nat>)
    requires maxWorkers >= 1 && futures != map[] && progress == |observed|
    requires Searching(source, open, maxWorkers, next, futures, observed, window)
    ensures progress' == |observed'| > progress
    ensures observed <= observed' && window <= window'
    ensures forall i :: |observed| <= i < |observed'| ==> observed'[i] in futures
    ensures found.None? ==> |observed'| == |observed| + |futures|
    ensures found.None? ==> Searching(source, open, maxWorkers, next', futures', observed', window')
    ensures found.None? ==> |source| - next' + |futures'| < |source| - next + |futures|
    ensures found.Some? ==> Concluded(source, open, maxWorkers, found, progress', next', observed', window')
  {
    found, next', futures', progress', observed', window' := None, next, futures, progress, observed, window;
    var round := futures.Keys;                     // list(futures.keys())
    while round != {}
      invariant found.None? && round <= futures'.Keys && progress' == |observed'|
      invariant observed <= observed' && window <= window' && round <= futures.Keys
      invariant forall i :: |observed| <= i < |observed'| ==> observed'[i] in futures && observed'[i] !in round
      invariant Searching(source, open, maxWorkers, next', futures', observed', window')
      invariant |source| - next' + |futures'| + (|futures| - |round|) == |source| - next + |futures|
      invariant progress' == progress + (|futures| - |round|)
      decreases |round|
    {
      var t :| t in round;                         // whichever future of the snapshot finishes next
      SnapshotStep(observed, observed', futures.Keys, round, t);
      round := round - {t};
      found, next', futures', progress', observed', window' :=
        TakeCompletion(source, open, maxWorkers, next', futures', progress', observed', window', t);
      if found.Some? {
        return;
      }
    }
  }

  /**
   * The initial fill (lines 39-44): pull up to maxWorkers candidates, stopping
   * early when the iterator is exhausted, and dispatch each as the next future.
   * Returns how far the iterator was advanced and the resulting window.
   */
  method FillWindow(source: seq<string>, maxWorkers: nat) returns (next: nat, futures: map<nat, string>)
    ensures next <= maxWorkers && next <= |source| && (next < maxWorkers ==> next == |source|)
    ensures |futures| == next
    ensures forall t :: t in futures <==> 0 <= t < next
    ensures forall t :: t in futures ==> futures[t] == source[t]
  {
    next, futures := 0, map[];
    while next < maxWorkers && next < |source|
      invariant next <= maxWorkers && next <= |source|
      invariant forall t :: t in futures ==> t < next && futures[t] == source[t]
      invariant forall t :: 0 <= t < next ==> t in futures
      invariant |futures| == next
    {
      futures := futures[next := source[next]];
      next := next + 1;
    }
  }

  /**
   * `decrypt_pdf` (cracker.py lines 34-65) over the candidates `source`, with
   * `max_workers` = maxWorkers. Futures are identified by their dispatch number:
   * the t-th candidate pulled from the iterator is source[t] and runs as future t.
   *
   * Returns the search result, the number of progress updates (`pbar.update(1)`)
   * and the number of candidates pulled from the iterator. The ghost `observed`
   * lists the futures in the order their completions were taken, and `window`
   * the number of futures in flight when each completion was taken.
   */
  method DecryptPdf(source: seq<string>, open: string -> Outcome, maxWorkers: nat)
    returns (found: Option<string>, progress: nat, dispatched: nat, ghost observed: seq<nat>, ghost window: seq<nat>)
    requires maxWorkers >= 1
    ensures Accounted(source, maxWorkers, progress, dispatched, observed, window)
    ensures Sound(source, open, found, observed)
    ensures Complete(source, open, found, progress, dispatched)
    ensures SingleWorkerOrder(source, open, maxWorkers, found, progress, observed)
  {
    var next, futures;
    observed, window := [], [];
    progress := 0;

    next, futures := FillWindow(source, maxWorkers);
    if futures == map[] {                          // lines 46-47: nothing to try
      ConcludeExhausted(source, open, maxWorkers, 0, [], []);
      return None, 0, 0, [], [];
    }

    found := None;
    while futures != map[]                         // line 50
      invariant found.None? && progress == |observed|
      invariant Searching(source, open, maxWorkers, next, futures, observed, window)
      decreases |source| - next + |futures|
    {
      found, next, futures, progress, observed, window :=
        TakeRound(source, open, maxWorkers, next, futures, progress, observed, window);
      if found.Some? {
        break;
      }
    }
    if found.None? {
      ConcludeExhausted(source, open, maxWorkers, next, observed, window);
    }
    dispatched := next;
    assert Concluded(source, open, maxWorkers, found, progress, dispatched, observed, window);
  }

  /** An empty candidate source ends the search at once: no result and no progress update (lines 39-47). */
  lemma EmptySource(open: string -> Outcome, maxWorkers: nat, found: Option<string>, progress: nat,
                    dispatched: nat, observed: seq<nat>, window: seq<nat>)
    requires Concluded([], open, maxWorkers, found, progress, dispatched, observed, window)
    ensures found == None && progress == 0 && dispatched == 0
  {
  }

  /** The oracle of the early-stop scenario: only "c" opens the document. */
  function OnlyC(password: string): Outcome
  {
    if password == "c" then Opened else WrongPassword
  }

  /**
   * Early stop: over "a", "b", "c", "d" with only "c" opening the document, one
   * worker finds "c" after exactly three progress updates, and four workers find
   * "c" as well.
   */
  method EarlyStop() returns (one: Option<string>, oneProgress: nat, four: Option<string>)
    ensures one == Some("c") && oneProgress == 3
    ensures four == Some("c")
  {
    var source := ["a", "b", "c", "d"];
    assert Stops(OnlyC, source[2]) && !Stops(OnlyC, source[0]) && !Stops(OnlyC, source[1]);
    FirstStopAt(source, OnlyC, 2);
    var p, d: nat;
    ghost var o: seq<nat>, w: seq<nat>;
    one, oneProgress, d, o, w := DecryptPdf(source, OnlyC, 1);
    four, p, d, o, w := DecryptPdf(source, OnlyC, 4);
    assert four.Some?;
    assert OnlyC(four.value) == Opened;
  }
}
