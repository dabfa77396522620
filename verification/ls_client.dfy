/**
 * The client's global state as one object: the set registry (an intrusive
 * list in the program, a sequence here with the front at index 0), the
 * directory flags dir_done/dir_status and the terminal flag done. Each
 * callback is a method that changes the fields in place, one event at a time.
 * The log `issued` records what the drain loop printed or submitted.
 */
module LsClient {
  import opened LsModel

  class Client {
    /** The -v count and the -l flag, fixed once the options are parsed. */
    const mode: Mode
    var sets: seq<SetName>
    var dirDone: bool
    var dirStatus: int
    var done: int
    var issued: seq<Action>

    /** The fields as a value of the model. */
    function State(): Ls
      reads this
    {
      Ls(sets, dirDone, dirStatus, done)
    }

    constructor (mode: Mode)
      ensures this.mode == mode
      ensures State() == Initial && issued == []
    {
      this.mode := mode;
      sets := [];
      dirDone := false;
      dirStatus := 0;
      done := 0;
      issued := [];
    }

    /** add_set: push the name on the front, or record ENOMEM when no node can be allocated. */
    method AddSet(name: SetName, allocOk: bool)
      modifies this
      ensures State() == InsertSet(old(State()), name, allocOk)
      ensures allocOk ==> sets == [name] + old(sets)
      ensures !allocOk ==> sets == old(sets) && dirStatus == ENOMEM
      ensures issued == old(issued)
    {
      if !allocOk {
        dirStatus := ENOMEM;
        return;
      }
      sets := [name] + sets;
    }

    /** add_set_list: add every name of a page, first to last. */
    method AddSetList(names: seq<SetName>, alloc: seq<bool>)
      requires |alloc| == |names|
      modifies this
      ensures State() == InsertSetList(old(State()), names, alloc)
      ensures sets == Reverse(Kept(names, alloc)) + old(sets)
      ensures dirStatus == (if false in alloc then ENOMEM else old(dirStatus))
      ensures dirDone == old(dirDone) && done == old(done) && issued == old(issued)
    {
      var i := 0;
      while i < |names|
        invariant 0 <= i <= |names|
        invariant State() == InsertSetList(old(State()), names[..i], alloc[..i])
        invariant issued == old(issued)
      {
        AddSet(names[i], alloc[i]);
        assert names[..i + 1][..i] == names[..i];
        assert alloc[..i + 1][..i] == alloc[..i];
        i := i + 1;
      }
      assert names[..i] == names && alloc[..i] == alloc;
      InsertSetListEffect(old(State()), names, alloc);
    }

    /**
     * dir_cb: an error page records its status and ends the directory phase;
     * a successful page adds its names and ends the phase unless more pages
     * follow. Ending the phase also ends the run in list-only mode.
     */
    method DirCallback(ev: DirEvent)
      requires ev.WellFormed()
      modifies this
      ensures State() == DirStep(mode, old(State()), ev)
      ensures issued == old(issued)
    {
      if ev.status != 0 {
        dirStatus := ev.status;
      } else {
        var more := ev.page.more;
        AddSetList(ev.page.names, ev.alloc);
        if more {
          return;
        }
      }
      if !mode.Detailed() {
        done := 1;
      }
      dirDone := true;
    }

    /**
     * Manual mode: the names come from the command line and form a single
     * page; no directory request is sent. Refused without -v or -l.
     * dirAllocOk is whether the dummy directory could be allocated.
     */
    method ManualSetup(names: seq<SetName>, dirAllocOk: bool, alloc: seq<bool>) returns (stop: Option<Stop>)
      requires |names| > 0 && |alloc| == |names|
      modifies this
      ensures !mode.Detailed() ==> stop == Some(Usage) && State() == old(State())
      ensures mode.Detailed() && !dirAllocOk ==> stop == Some(ManualDirAllocFailed) && State() == old(State())
      ensures mode.Detailed() && dirAllocOk ==>
        stop == None &&
        sets == Reverse(Kept(names, alloc)) + old(sets) &&
        dirDone && dirStatus == 0 && done == old(done)
      ensures issued == old(issued)
    {
      if !mode.Detailed() {
        return Some(Usage);
      }
      if !dirAllocOk {
        return Some(ManualDirAllocFailed);
      }
      AddSetList(names, alloc);
      dirDone := true;
      dirStatus := 0;
      stop := None;
    }

    /**
     * The drain loop of main: remove entries front first; with -v or -l submit
     * a lookup flagged last when the registry is then empty, otherwise print
     * the name. submit[i] is what ldms_lookup returns for the i-th entry.
     */
    method Drain(submit: seq<int>)
      requires |submit| == |sets|
      modifies this
      ensures sets == []
      ensures issued == old(issued) + DrainTrace(mode, old(sets), submit)
      ensures dirDone == old(dirDone) && dirStatus == old(dirStatus) && done == old(done)
    {
      var i := 0;
      while sets != []
        invariant 0 <= i <= |submit| && sets == old(sets)[i..]
        invariant issued + DrainTrace(mode, sets, submit[i..]) == old(issued) + DrainTrace(mode, old(sets), submit)
        invariant dirDone == old(dirDone) && dirStatus == old(dirStatus) && done == old(done)
        decreases |sets|
      {
        ghost var before := sets;
        var name := sets[0];
        sets := sets[1..];
        var last := sets == [];
        var action;
        if mode.Detailed() {
          action := LookupSubmitted(name, last, submit[i]);
        } else {
          action := Listed(name);
        }
        assert DrainTrace(mode, before, submit[i..]) == [action] + DrainTrace(mode, sets, submit[i + 1..]);
        issued := issued + [action];
        i := i + 1;
      }
      assert submit[i..] == [];
    }

    /**
     * lookup_cb: on success the chained update is requested; on failure of
     * the entry flagged last the terminal flag takes the failure status.
     */
    method LookupCallback(status: int, last: bool) returns (updateRequested: bool)
      modifies this
      ensures updateRequested == (status == 0)
      ensures done == Complete(old(done), LookupDone(status, last))
      ensures sets == old(sets) && dirDone == old(dirDone) && dirStatus == old(dirStatus)
      ensures issued == old(issued)
    {
      if status != 0 {
        if last {
          done := 1;
          done := status;
        }
        return false;
      }
      return true;
    }

    /**
     * print_cb: the set is released only after a successful update; for the
     * entry flagged last the terminal flag is set whatever rc is.
     */
    method PrintCallback(rc: int, last: bool) returns (destroyed: bool)
      modifies this
      ensures destroyed == (rc == 0)
      ensures done == Complete(old(done), UpdateDone(rc, last))
      ensures sets == old(sets) && dirDone == old(dirDone) && dirStatus == old(dirStatus)
      ensures issued == old(issued)
    {
      destroyed := rc == 0;
      if last {
        done := 1;
      }
    }
  }
}
