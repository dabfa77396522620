/**
 * The bookkeeping state of the ldms_ls client, as plain values, and the rules
 * by which its callbacks change it. Each callback is one atomic event: the
 * directory page handler, the lookup completion and the update completion.
 * The class in LsClient applies the same rules in place; the lemmas here say
 * what the rules mean over whole sequences of events.
 */
module LsModel {
  type SetName = string

  datatype Option<T> = None | Some(value: T)

  /** The errno value add_set records when it cannot allocate a registry node (Linux). */
  const ENOMEM: int := 12

  /** The output options that decide what the client does with each set: -v count and -l. */
  datatype Mode = Mode(verbose: nat, longFormat: bool)
  {
    /** -v or -l was given: sets are looked up and updated, not only listed. */
    predicate Detailed() { verbose > 0 || longFormat }
  }

  /** One directory page: the set names it carries and whether more pages follow. */
  datatype Page = Page(names: seq<SetName>, more: bool)

  /**
   * One call of the directory callback. alloc[i] is whether the allocation of
   * the registry node for page.names[i] succeeds; it is supplied from outside.
   */
  datatype DirEvent = DirEvent(status: int, page: Page, alloc: seq<bool>)
  {
    predicate WellFormed() { |alloc| == |page.names| }

    /** An error page or the final page: the directory phase ends here. */
    predicate Completes() { status != 0 || !page.more }

    /** The page leaves a non-zero directory status behind: an error or an allocation failure. */
    predicate Fails() { status != 0 || false in alloc }
  }

  /** The shared state: registry (front first) and the two completion flag groups. */
  datatype Ls = Ls(sets: seq<SetName>, dirDone: bool, dirStatus: int, done: int)

  /** Zero-initialised globals and an empty registry, as at program start. */
  const Initial: Ls := Ls([], false, 0, 0)

  /** How a run of the client ends, before it is mapped to an exit code. */
  datatype Stop =
    | Usage                 // usage text, also for an unresolvable or non-IPv4 host
    | TransportCreateFailed
    | ConnectFailed
    | DirRequestFailed      // ldms_dir refused the request synchronously
    | ManualDirAllocFailed  // the dummy directory for manual mode could not be allocated
    | ServerTimeout
    | DirectoryError(status: int)
    | Finished

  // ---------------------------------------------------------------------
  // Sequence helpers

  function Reverse<T>(s: seq<T>): (r: seq<T>)
    ensures |r| == |s|
  {
    if s == [] then [] else Reverse(s[1..]) + [s[0]]
  }

  lemma {:induction false} ReverseAppend<T>(a: seq<T>, b: seq<T>)
    ensures Reverse(a + b) == Reverse(b) + Reverse(a)
  {
    if a == [] {
      assert a + b == b;
    } else {
      assert (a + b)[1..] == a[1..] + b;
      ReverseAppend(a[1..], b);
    }
  }

  /** The names of a page whose registry node could be allocated, in page order. */
  function Kept(names: seq<SetName>, alloc: seq<bool>): (r: seq<SetName>)
    requires |alloc| == |names|
    decreases |names|
  {
    if names == [] then []
    else
      var n := |names| - 1;
      Kept(names[..n], alloc[..n]) + (if alloc[n] then [names[n]] else [])
  }

  lemma {:induction false} KeptAll(names: seq<SetName>, alloc: seq<bool>)
    requires |alloc| == |names| && false !in alloc
    ensures Kept(names, alloc) == names
  {
    if names != [] {
      var n := |names| - 1;
      assert alloc == alloc[..n] + [alloc[n]];
      KeptAll(names[..n], alloc[..n]);
      assert names == names[..n] + [names[n]];
    }
  }

  // ---------------------------------------------------------------------
  // Set registry

  /** add_set: front insertion, or ENOMEM recorded when the node cannot be allocated. */
  function InsertSet(st: Ls, name: SetName, allocOk: bool): (r: Ls)
    ensures allocOk ==> |r.sets| == |st.sets| + 1 && r.sets[0] == name && r.sets[1..] == st.sets
    ensures allocOk ==> r.dirStatus == st.dirStatus
    ensures !allocOk ==> r.sets == st.sets && r.dirStatus == ENOMEM
    ensures r.dirDone == st.dirDone && r.done == st.done
  {
    if allocOk then st.(sets := [name] + st.sets) else st.(dirStatus := ENOMEM)
  }

  /** add_set_list: add_set for every name of the page, first to last. */
  function InsertSetList(st: Ls, names: seq<SetName>, alloc: seq<bool>): Ls
    requires |alloc| == |names|
    decreases |names|
  {
    if names == [] then st
    else
      var n := |names| - 1;
      InsertSet(InsertSetList(st, names[..n], alloc[..n]), names[n], alloc[n])
  }

  /** The page's surviving names end up reversed in front of the old registry. */
  lemma {:induction false} InsertSetListEffect(st: Ls, names: seq<SetName>, alloc: seq<bool>)
    requires |alloc| == |names|
    ensures InsertSetList(st, names, alloc).sets == Reverse(Kept(names, alloc)) + st.sets
    ensures InsertSetList(st, names, alloc).dirStatus == (if false in alloc then ENOMEM else st.dirStatus)
    ensures InsertSetList(st, names, alloc).dirDone == st.dirDone
    ensures InsertSetList(st, names, alloc).done == st.done
  {
    InsertSetListSets(st, names, alloc);
    InsertSetListStatus(st, names, alloc);
  }

  lemma {:induction false} InsertSetListSets(st: Ls, names: seq<SetName>, alloc: seq<bool>)
    requires |alloc| == |names|
    ensures InsertSetList(st, names, alloc).sets == Reverse(Kept(names, alloc)) + st.sets
  {
    if names != [] {
      var n := |names| - 1;
      InsertSetListSets(st, names[..n], alloc[..n]);
      var prefix := Kept(names[..n], alloc[..n]);
      var tail := if alloc[n] then [names[n]] else [];
      assert Kept(names, alloc) == prefix + tail;
      ReverseAppend(prefix, tail);
      assert Reverse(tail) == tail;
    }
  }

  lemma {:induction false} InsertSetListStatus(st: Ls, names: seq<SetName>, alloc: seq<bool>)
    requires |alloc| == |names|
    ensures InsertSetList(st, names, alloc).dirStatus == (if false in alloc then ENOMEM else st.dirStatus)
    ensures InsertSetList(st, names, alloc).dirDone == st.dirDone
    ensures InsertSetList(st, names, alloc).done == st.done
  {
    if names != [] {
      var n := |names| - 1;
      InsertSetListStatus(st, names[..n], alloc[..n]);
      assert alloc == alloc[..n] + [alloc[n]];
    }
  }

  /** Without allocation failures the registry becomes reverse(names) ++ old registry. */
  lemma InsertSetListNoFailure(st: Ls, names: seq<SetName>, alloc: seq<bool>)
    requires |alloc| == |names| && false !in alloc
    ensures InsertSetList(st, names, alloc).sets == Reverse(names) + st.sets
    ensures InsertSetList(st, names, alloc).dirStatus == st.dirStatus
  {
    InsertSetListEffect(st, names, alloc);
    KeptAll(names, alloc);
  }

  // ---------------------------------------------------------------------
  // Directory page handler

  /** The wakeup label of dir_cb: end the directory phase, and the whole run in list-only mode. */
  function Wakeup(m: Mode, st: Ls): Ls
  {
    st.(done := if m.Detailed() then st.done else 1, dirDone := true)
  }

  /** dir_cb applied to one event. */
  function DirStep(m: Mode, st: Ls, ev: DirEvent): Ls
    requires ev.WellFormed()
  {
    if ev.status != 0 then Wakeup(m, st.(dirStatus := ev.status))
    else
      var added := InsertSetList(st, ev.page.names, ev.alloc);
      if ev.page.more then added else Wakeup(m, added)
  }

  /** What one page does to each part of the state. */
  lemma DirStepEffect(m: Mode, st: Ls, ev: DirEvent)
    requires ev.WellFormed()
    ensures ev.status != 0 ==>
      DirStep(m, st, ev).dirStatus == ev.status && DirStep(m, st, ev).sets == st.sets
    ensures ev.status == 0 ==>
      DirStep(m, st, ev).sets == Reverse(Kept(ev.page.names, ev.alloc)) + st.sets &&
      DirStep(m, st, ev).dirStatus == (if false in ev.alloc then ENOMEM else st.dirStatus)
    ensures !ev.Completes() ==>
      DirStep(m, st, ev).dirDone == st.dirDone && DirStep(m, st, ev).done == st.done
    ensures ev.Completes() ==>
      DirStep(m, st, ev).dirDone && DirStep(m, st, ev).done == (if m.Detailed() then st.done else 1)
  {
    InsertSetListEffect(st, ev.page.names, ev.alloc);
  }

  predicate AllWellFormed(evs: seq<DirEvent>)
  {
    forall i :: 0 <= i < |evs| ==> evs[i].WellFormed()
  }

  /** The directory callbacks applied one at a time, in arrival order. */
  function RunPages(m: Mode, st: Ls, evs: seq<DirEvent>): Ls
    requires AllWellFormed(evs)
    decreases |evs|
  {
    if evs == [] then st
    else
      var n := |evs| - 1;
      DirStep(m, RunPages(m, st, evs[..n]), evs[n])
  }

  /** dir_done is set after a page sequence exactly when one of its pages completes the phase. */
  lemma {:induction false} DirDoneIffCompletingPage(m: Mode, st: Ls, evs: seq<DirEvent>)
    requires AllWellFormed(evs) && !st.dirDone
    ensures RunPages(m, st, evs).dirDone <==> exists j :: 0 <= j < |evs| && evs[j].Completes()
  {
    if evs != [] {
      var n := |evs| - 1;
      DirDoneIffCompletingPage(m, st, evs[..n]);
      var prev := RunPages(m, st, evs[..n]);
      DirStepEffect(m, prev, evs[n]);
      if exists j :: 0 <= j < |evs| && evs[j].Completes() {
        var j :| 0 <= j < |evs| && evs[j].Completes();
        if j < n {
          assert evs[..n][j] == evs[j];
        }
      }
      if exists j :: 0 <= j < n && evs[..n][j].Completes() {
        var j :| 0 <= j < n && evs[..n][j].Completes();
        assert evs[j].Completes();
      }
    }
  }

  /**
   * dir_done first becomes true at page k only when page k is an error page
   * or a final page and no earlier page was either.
   */
  lemma DirDoneFirstSetAtFirstCompletingPage(m: Mode, st: Ls, evs: seq<DirEvent>, k: nat)
    requires AllWellFormed(evs) && !st.dirDone && k < |evs|
    requires !RunPages(m, st, evs[..k]).dirDone && RunPages(m, st, evs[..k + 1]).dirDone
    ensures evs[k].Completes()
    ensures forall j :: 0 <= j < k ==> !evs[j].Completes()
  {
    DirDoneIffCompletingPage(m, st, evs[..k]);
    DirDoneIffCompletingPage(m, st, evs[..k + 1]);
    assert evs[..k + 1][..k] == evs[..k];
    forall j | 0 <= j < k ensures !evs[j].Completes() {
      assert evs[..k][j] == evs[j];
    }
    var j :| 0 <= j < k + 1 && evs[..k + 1][j].Completes();
    assert evs[..k + 1][j] == evs[j];
  }

  /** Before the phase completes, the pages change neither flag of completion. */
  lemma {:induction false} PagesBeforeCompletion(m: Mode, st: Ls, evs: seq<DirEvent>)
    requires AllWellFormed(evs)
    requires forall j :: 0 <= j < |evs| ==> !evs[j].Completes()
    ensures RunPages(m, st, evs).dirDone == st.dirDone
    ensures RunPages(m, st, evs).done == st.done
  {
    if evs != [] {
      var n := |evs| - 1;
      PagesBeforeCompletion(m, st, evs[..n]);
      DirStepEffect(m, RunPages(m, st, evs[..n]), evs[n]);
    }
  }

  /** The directory status ends non-zero exactly when it started so or some page failed. */
  lemma {:induction false} DirStatusNonZeroIffFailure(m: Mode, st: Ls, evs: seq<DirEvent>)
    requires AllWellFormed(evs)
    ensures RunPages(m, st, evs).dirStatus != 0 <==>
      st.dirStatus != 0 || exists j :: 0 <= j < |evs| && evs[j].Fails()
  {
    if evs != [] {
      var n := |evs| - 1;
      DirStatusNonZeroIffFailure(m, st, evs[..n]);
      DirStepEffect(m, RunPages(m, st, evs[..n]), evs[n]);
      if exists j :: 0 <= j < |evs| && evs[j].Fails() {
        var j :| 0 <= j < |evs| && evs[j].Fails();
        if j < n {
          assert evs[..n][j] == evs[j];
        }
      }
      if exists j :: 0 <= j < n && evs[..n][j].Fails() {
        var j :| 0 <= j < n && evs[..n][j].Fails();
        assert evs[j].Fails();
      }
    }
  }

  /** All names carried by the successful pages, in arrival order. */
  function Discovered(evs: seq<DirEvent>): seq<SetName>
    decreases |evs|
  {
    if evs == [] then []
    else
      var n := |evs| - 1;
      Discovered(evs[..n]) + (if evs[n].status == 0 then evs[n].page.names else [])
  }

  /** Pagination: without failures the registry holds every discovered name, last discovered first. */
  lemma {:induction false} PagesFillRegistry(m: Mode, st: Ls, evs: seq<DirEvent>)
    requires AllWellFormed(evs)
    requires forall j :: 0 <= j < |evs| ==> !evs[j].Fails()
    ensures RunPages(m, st, evs).sets == Reverse(Discovered(evs)) + st.sets
  {
    if evs != [] {
      var n := |evs| - 1;
      var init := evs[..n];
      assert forall j :: 0 <= j < n ==> init[j] == evs[j];
      PagesFillRegistry(m, st, init);
      RunPagesLast(m, st, evs);
      DiscoveredLast(evs);
      FillStep(m, RunPages(m, st, init), evs[n]);
      AppendReversed(Discovered(init), evs[n].page.names, st.sets);
    }
  }

  /** RunPages unfolded at its last page. */
  lemma RunPagesLast(m: Mode, st: Ls, evs: seq<DirEvent>)
    requires AllWellFormed(evs) && evs != []
    ensures AllWellFormed(evs[..|evs| - 1])
    ensures RunPages(m, st, evs) == DirStep(m, RunPages(m, st, evs[..|evs| - 1]), evs[|evs| - 1])
  {
  }

  /** Discovered unfolded at its last page. */
  lemma DiscoveredLast(evs: seq<DirEvent>)
    requires evs != []
    ensures Discovered(evs) == Discovered(evs[..|evs| - 1]) +
      (if evs[|evs| - 1].status == 0 then evs[|evs| - 1].page.names else [])
  {
  }

  /** A page without failure puts all its names, reversed, in front of the registry. */
  lemma FillStep(m: Mode, prev: Ls, ev: DirEvent)
    requires ev.WellFormed() && !ev.Fails()
    ensures DirStep(m, prev, ev).sets == Reverse(ev.page.names) + prev.sets
  {
    DirStepEffect(m, prev, ev);
    KeptAll(ev.page.names, ev.alloc);
  }

  lemma AppendReversed(found: seq<SetName>, names: seq<SetName>, rest: seq<SetName>)
    ensures Reverse(names) + (Reverse(found) + rest) == Reverse(found + names) + rest
  {
    ReverseAppend(found, names);
    assert Reverse(names) + (Reverse(found) + rest) == (Reverse(names) + Reverse(found)) + rest;
  }

  // ---------------------------------------------------------------------
  // Drain loop

  /** What the drain loop does with one removed entry. */
  datatype Action =
    | Listed(name: SetName)                                 // list-only mode: the name is printed
    | LookupSubmitted(name: SetName, last: bool, ret: int)  // ldms_lookup called; ret is its synchronous result

  /** The actions of the drain loop over a registry, front first; submit[i] is the i-th lookup's return. */
  function DrainTrace(m: Mode, reg: seq<SetName>, submit: seq<int>): seq<Action>
    requires |submit| == |reg|
    decreases |reg|
  {
    if reg == [] then []
    else
      var last := reg[1..] == [];
      [if m.Detailed() then LookupSubmitted(reg[0], last, submit[0]) else Listed(reg[0])]
        + DrainTrace(m, reg[1..], submit[1..])
  }

  /** The i-th action handles the i-th registry entry, and only the final one is flagged last. */
  lemma {:induction false} DrainTraceAt(m: Mode, reg: seq<SetName>, submit: seq<int>)
    requires |submit| == |reg|
    ensures |DrainTrace(m, reg, submit)| == |reg|
    ensures forall i :: 0 <= i < |reg| ==>
      (DrainTrace(m, reg, submit)[i] ==
        if m.Detailed() then LookupSubmitted(reg[i], i == |reg| - 1, submit[i]) else Listed(reg[i]))
  {
    if reg != [] {
      DrainTraceAt(m, reg[1..], submit[1..]);
    }
  }

  /** List-only mode prints each discovered name once, most recently discovered first, and looks nothing up. */
  lemma ListOnlyPrintsReverseDiscovery(m: Mode, evs: seq<DirEvent>, submit: seq<int>)
    requires !m.Detailed() && AllWellFormed(evs)
    requires forall j :: 0 <= j < |evs| ==> !evs[j].Fails()
    requires |submit| == |RunPages(m, Initial, evs).sets|
    ensures var t := DrainTrace(m, RunPages(m, Initial, evs).sets, submit);
      |t| == |Discovered(evs)| &&
      forall i :: 0 <= i < |t| ==> t[i] == Listed(Discovered(evs)[|t| - 1 - i])
  {
    PagesFillRegistry(m, Initial, evs);
    var reg := RunPages(m, Initial, evs).sets;
    assert reg == Reverse(Discovered(evs));
    DrainTraceAt(m, reg, submit);
    forall i | 0 <= i < |reg| ensures reg[i] == Discovered(evs)[|reg| - 1 - i] {
      ReverseAt(Discovered(evs), i);
    }
  }

  lemma {:induction false} ReverseAt<T>(s: seq<T>, i: nat)
    requires i < |s|
    ensures Reverse(s)[i] == s[|s| - 1 - i]
  {
    if i < |s| - 1 {
      ReverseAt(s[1..], i);
    }
  }

  // ---------------------------------------------------------------------
  // Completion callbacks

  /** A completion delivered by the transport for an accepted lookup. */
  datatype Completion =
    | LookupDone(status: int, last: bool)  // lookup_cb
    | UpdateDone(rc: int, last: bool)      // print_cb, after the chained update

  {
    /** The completion that ends the terminal wait: a failed lookup or any update of the last entry. */
    predicate Ends() { last && (UpdateDone? || status != 0) }
  }

  /** The new value of done after one completion. */
  function Complete(done: int, c: Completion): (r: int)
    ensures !c.last ==> r == done
    ensures c.last && c.UpdateDone? ==> r == 1
    ensures c.last && c.LookupDone? && c.status != 0 ==> r == c.status
    ensures c.LookupDone? && c.status == 0 ==> r == done
  {
    match c
    case LookupDone(status, last) => if status != 0 && last then status else done
    case UpdateDone(_, last) => if last then 1 else done
  }

  function CompleteAll(done: int, cs: seq<Completion>): int
    decreases |cs|
  {
    if cs == [] then done
    else
      var n := |cs| - 1;
      Complete(CompleteAll(done, cs[..n]), cs[n])
  }

  /** Completions of entries not flagged last leave done as it was. */
  lemma {:induction false} CompletionsWithoutLastKeepDone(done: int, cs: seq<Completion>)
    requires forall k :: 0 <= k < |cs| ==> !cs[k].last
    ensures CompleteAll(done, cs) == done
  {
    if cs != [] {
      CompletionsWithoutLastKeepDone(done, cs[..|cs| - 1]);
    }
  }

  /** The terminal wait ends exactly when done was already set or an ending completion arrived. */
  lemma {:induction false} TerminalIffEndingCompletion(done: int, cs: seq<Completion>)
    ensures CompleteAll(done, cs) != 0 <==> done != 0 || exists k :: 0 <= k < |cs| && cs[k].Ends()
  {
    if cs != [] {
      var n := |cs| - 1;
      TerminalIffEndingCompletion(done, cs[..n]);
      if exists k :: 0 <= k < |cs| && cs[k].Ends() {
        var k :| 0 <= k < |cs| && cs[k].Ends();
        if k < n {
          assert cs[..n][k] == cs[k];
        }
      }
      if exists k :: 0 <= k < n && cs[..n][k].Ends() {
        var k :| 0 <= k < n && cs[..n][k].Ends();
        assert cs[k].Ends();
      }
    }
  }

  /** Some drained entry flagged last had its lookup accepted. */
  predicate LastLookupAccepted(t: seq<Action>)
  {
    exists i :: 0 <= i < |t| && t[i].LookupSubmitted? && t[i].last && t[i].ret == 0
  }

  /**
   * In -v/-l mode the terminal flag can only be raised by the completion of
   * the final drained entry: an empty registry, or a final lookup refused
   * synchronously, leaves done at 0 whatever completions arrive.
   */
  lemma {:induction false} TerminalNeedsFinalLookup(m: Mode, reg: seq<SetName>, submit: seq<int>, cs: seq<Completion>)
    requires m.Detailed() && |submit| == |reg|
    requires (exists k :: 0 <= k < |cs| && cs[k].last) ==> LastLookupAccepted(DrainTrace(m, reg, submit))
    requires CompleteAll(0, cs) != 0
    ensures |reg| > 0 && submit[|reg| - 1] == 0
  {
    TerminalIffEndingCompletion(0, cs);
    var k :| 0 <= k < |cs| && cs[k].Ends();
    var t := DrainTrace(m, reg, submit);
    DrainTraceAt(m, reg, submit);
    var i :| 0 <= i < |t| && t[i].LookupSubmitted? && t[i].last && t[i].ret == 0;
    assert t[i] == LookupSubmitted(reg[i], i == |reg| - 1, submit[i]);
  }
}
