/** The kernel as the repository sees it: one heap, changed one system call at a time.

    `faults` decides for every call whether it fails and how; a failed call leaves the heap alone,
    except that a recursive removal or a write may stop half way (`torn`, `short`). Quantifying over
    disks therefore quantifies over every failure schedule. `history` keeps the heap after every
    call, so what holds of each of its members holds if the process stops at any point. */
module Disks {
  import opened Wrappers
  import opened Filesystem
  import opened HeapUpdates

  const DEFAULT_FILE_MODE: nat := 0x1A4

  datatype Kind = KFile | KDir | KSymlink | KSpecial

  function KindOf(node: Node): Kind {
    match node
    case File(_, _) => KFile
    case Dir(_) => KDir
    case Symlink(_) => KSymlink
    case Special => KSpecial
  }

  /** A fault is any error but `NotFound`, which only a missing entry causes. */
  ghost predicate Honest(faults: nat -> Option<IoKind>) {
    forall t :: faults(t) != Some(NotFound)
  }

  /** Since `before`, the heap was only ever the first or the last of two. */
  ghost predicate OnlyThese(before: seq<Heap>, now: seq<Heap>, h0: Heap, h: Heap) {
    before <= now && forall k :: |before| <= k < |now| ==> now[k] == h0 || now[k] == h
  }

  class Disk {
    var heap: Heap
    var nextIno: Ino
    var clock: nat
    ghost var history: seq<Heap>
    const faults: nat -> Option<IoKind>
    const torn: nat -> set<(Ino, Name)>
    const short: nat -> nat

    ghost predicate Valid()
      reads this
    {
      Wf(heap) && (forall i :: i in heap ==> i < nextIno) && Honest(faults)
    }

    /** No call fails from now on. */
    ghost predicate Quiet()
      reads this
    {
      forall t :: t >= clock ==> faults(t) == None
    }

    twostate predicate Ticked()
      reads this
    {
      clock == old(clock) + 1 && history == old(history) + [heap]
    }

    twostate predicate Observed()
      reads this
    {
      Ticked() && heap == old(heap) && nextIno == old(nextIno)
    }

    /** Any number of calls that changed nothing. */
    twostate predicate Watched()
      reads this
    {
      && heap == old(heap) && nextIno == old(nextIno) && clock >= old(clock)
      && old(history) <= history
      && forall k :: |old(history)| <= k < |history| ==> history[k] == heap
    }

    constructor (faults: nat -> Option<IoKind>, torn: nat -> set<(Ino, Name)>, short: nat -> nat)
      requires Honest(faults)
      ensures Valid() && heap == map[0 := Dir(map[])] && history == [] && clock == 0
      ensures this.faults == faults && this.torn == torn && this.short == short
    {
      heap, nextIno, clock, history := map[0 := Dir(map[])], 1, 0, [];
      this.faults, this.torn, this.short := faults, torn, short;
      new;
      assert forall d, n :: Lookup(heap, d, n) == None;
      assert forall d: Ino, p: Route :: p != [] ==> Walk(heap, d, p) == None;
    }

    method SymlinkMetadata(d: Ino, n: Name) returns (r: Result<Kind, IoKind>)
      requires Valid()
      modifies this
      ensures Valid() && Observed()
      ensures r == match faults(old(clock))
                   case Some(k) => Err(k)
                   case None =>
                     match Lookup(heap, d, n)
                     case None => Err(NotFound)
                     case Some(i) => if i in heap then Ok(KindOf(heap[i])) else Err(NotFound)
    {
      clock := clock + 1;
      history := history + [heap];
      match faults(clock - 1) {
        case Some(k) => r := Err(k);
        case None =>
          match Lookup(heap, d, n)
          case None => r := Err(NotFound);
          case Some(i) => r := if i in heap then Ok(KindOf(heap[i])) else Err(NotFound);
      }
    }

    method OpenDirNofollow(d: Ino, n: Name) returns (r: Result<Ino, IoKind>)
      requires Valid()
      modifies this
      ensures Valid() && Observed()
      ensures r == match faults(old(clock))
                   case Some(k) => Err(k)
                   case None =>
                     match Lookup(heap, d, n)
                     case None => Err(NotFound)
                     case Some(i) => if IsDir(heap, i) then Ok(i) else Err(NotADirectory)
    {
      clock := clock + 1;
      history := history + [heap];
      match faults(clock - 1) {
        case Some(k) => r := Err(k);
        case None =>
          match Lookup(heap, d, n)
          case None => r := Err(NotFound);
          case Some(i) => r := if IsDir(heap, i) then Ok(i) else Err(NotADirectory);
      }
    }

    /** `open(O_RDONLY | O_NOFOLLOW | O_NONBLOCK)`: a link fails, anything else opens. */
    method OpenNofollow(d: Ino, n: Name) returns (r: Result<Ino, IoKind>)
      requires Valid()
      modifies this
      ensures Valid() && Observed()
      ensures r == match faults(old(clock))
                   case Some(k) => Err(k)
                   case None =>
                     match Lookup(heap, d, n)
                     case None => Err(NotFound)
                     case Some(i) => if i in heap && !heap[i].Symlink? then Ok(i) else Err(Other)
    {
      clock := clock + 1;
      history := history + [heap];
      match faults(clock - 1) {
        case Some(k) => r := Err(k);
        case None =>
          match Lookup(heap, d, n)
          case None => r := Err(NotFound);
          case Some(i) => r := if i in heap && !heap[i].Symlink? then Ok(i) else Err(Other);
      }
    }

    method Metadata(i: Ino) returns (r: Result<Node, IoKind>)
      requires Valid() && i in heap
      modifies this
      ensures Valid() && Observed()
      ensures r == match faults(old(clock)) case Some(k) => Err(k) case None => Ok(heap[i])
    {
      clock := clock + 1;
      history := history + [heap];
      r := match faults(clock - 1) case Some(k) => Err(k) case None => Ok(heap[i]);
    }

    /** `fsync` and `flush`: nothing changes that another call could see. */
    method Sync() returns (r: Result<(), IoKind>)
      requires Valid()
      modifies this
      ensures Valid() && Observed()
      ensures r == match faults(old(clock)) case Some(k) => Err(k) case None => Ok(())
    {
      clock := clock + 1;
      history := history + [heap];
      r := match faults(clock - 1) case Some(k) => Err(k) case None => Ok(());
    }

    /** Make a new inode and name it: `mkdir`, `open(O_CREAT | O_EXCL)` and `symlink`. */
    method Create(d: Ino, n: Name, node: Node) returns (r: Result<Ino, IoKind>)
      requires Valid() && IsDir(heap, d)
      requires node.Dir? ==> node.entries == map[]
      modifies this
      ensures Valid() && Ticked() && nextIno >= old(nextIno)
      ensures r.Err? ==> heap == old(heap)
      ensures r.Ok? ==> r.value !in old(heap) && heap == Attach(old(heap)[r.value := node], d, n, r.value)
      ensures r.Ok? <==> faults(old(clock)) == None && Lookup(old(heap), d, n) == None
      ensures r.Err? ==> r.error == match faults(old(clock)) case Some(k) => k case None => AlreadyExists
    {
      clock := clock + 1;
      if faults(clock - 1) != None {
        r := Err(faults(clock - 1).value);
      } else if Lookup(heap, d, n).Some? {
        r := Err(AlreadyExists);
      } else {
        var i := nextIno;
        NodeWf(heap, i, node);
        ghost var h1 := heap[i := node];
        assert forall e, m :: Lookup(h1, e, m) == Lookup(heap, e, m);
        if node.Dir? {
          assert Orphan(h1, i);
          forall p ensures Walk(h1, i, p) != Some(d) { }
          AttachDirWf(h1, d, n, i);
        } else {
          AttachFileWf(h1, d, n, i);
        }
        heap := Attach(heap[i := node], d, n, i);
        nextIno := i + 1;
        r := Ok(i);
      }
      history := history + [heap];
    }

    /** Append to an open file. A failing write may leave any prefix behind. */
    method WriteAll(i: Ino, data: seq<Byte>) returns (r: Result<(), IoKind>)
      requires Valid() && i in heap && heap[i].File?
      modifies this
      ensures Valid() && Ticked() && nextIno == old(nextIno)
      ensures r.Ok? <==> faults(old(clock)) == None
      ensures heap.Keys == old(heap).Keys && heap[i].File?
      ensures r.Ok? ==> heap[i] == old(heap)[i].(bytes := old(heap)[i].bytes + data)
      ensures exists k: nat :: k <= |data| && heap[i] == old(heap)[i].(bytes := old(heap)[i].bytes + data[..k])
      ensures heap == old(heap)[i := heap[i]]
    {
      clock := clock + 1;
      var done := data;
      r := Ok(());
      if faults(clock - 1).Some? {
        done := if short(clock - 1) <= |data| then data[..short(clock - 1)] else data;
        r := Err(faults(clock - 1).value);
      }
      assert done == data[..|done|];
      FileUpdateWf(heap, i, heap[i].(bytes := heap[i].bytes + done));
      heap := heap[i := heap[i].(bytes := heap[i].bytes + done)];
      history := history + [heap];
    }

    method SetMode(i: Ino, mode: nat) returns (r: Result<(), IoKind>)
      requires Valid() && i in heap && heap[i].File?
      modifies this
      ensures Valid() && Ticked() && nextIno == old(nextIno)
      ensures r.Ok? <==> faults(old(clock)) == None
      ensures heap == if r.Ok? then old(heap)[i := old(heap)[i].(mode := mode)] else old(heap)
    {
      clock := clock + 1;
      match faults(clock - 1) {
        case Some(k) => r := Err(k);
        case None =>
          FileUpdateWf(heap, i, heap[i].(mode := mode));
          heap := heap[i := heap[i].(mode := mode)];
          r := Ok(());
      }
      history := history + [heap];
    }

    /** `linkat` without following: directories cannot be linked. */
    method HardLink(d1: Ino, n1: Name, d2: Ino, n2: Name) returns (r: Result<(), IoKind>)
      requires Valid() && IsDir(heap, d2)
      modifies this
      ensures Valid() && Ticked() && nextIno == old(nextIno)
      ensures r.Err? ==> heap == old(heap)
      ensures r.Ok? ==> Lookup(old(heap), d1, n1).Some?
                        && heap == Attach(old(heap), d2, n2, Lookup(old(heap), d1, n1).value)
      ensures r.Ok? <==> && faults(old(clock)) == None
                         && Lookup(old(heap), d1, n1).Some?
                         && !IsDir(old(heap), Lookup(old(heap), d1, n1).value)
                         && Lookup(old(heap), d2, n2) == None
      ensures faults(old(clock)) == None && Lookup(old(heap), d1, n1).Some? ==>
                (r.Err? && !IsDir(old(heap), Lookup(old(heap), d1, n1).value) ==> r.error == AlreadyExists)
    {
      clock := clock + 1;
      var src := Lookup(heap, d1, n1);
      if faults(clock - 1).Some? {
        r := Err(faults(clock - 1).value);
      } else if src == None {
        r := Err(NotFound);
      } else if IsDir(heap, src.value) {
        r := Err(Other);
      } else if Lookup(heap, d2, n2).Some? {
        r := Err(AlreadyExists);
      } else {
        AttachFileWf(heap, d2, n2, src.value);
        heap := Attach(heap, d2, n2, src.value);
        r := Ok(());
      }
      history := history + [heap];
    }

    /** The kernel also refuses to move a directory below itself; the last precondition says that
        no caller asks for that. */
    method Rename(d1: Ino, n1: Name, d2: Ino, n2: Name) returns (r: Result<(), IoKind>)
      requires Valid() && IsDir(heap, d1) && IsDir(heap, d2)
      requires Lookup(heap, d1, n1).Some? && IsDir(heap, Lookup(heap, d1, n1).value)
               ==> d2 !in Subtree(heap, Lookup(heap, d1, n1).value)
      modifies this
      ensures Valid() && Ticked() && nextIno == old(nextIno)
      ensures r.Err? ==> heap == old(heap)
      ensures r.Ok? ==> Move(old(heap), d1, n1, d2, n2) == Ok(heap)
      ensures r.Ok? <==> faults(old(clock)) == None && Move(old(heap), d1, n1, d2, n2).Ok?
    {
      clock := clock + 1;
      MoveWf(heap, d1, n1, d2, n2);
      if faults(clock - 1).Some? {
        r := Err(faults(clock - 1).value);
      } else {
        match Move(heap, d1, n1, d2, n2)
        case Ok(h) => heap, r := h, Ok(());
        case Err(k) => r := Err(k);
      }
      history := history + [heap];
    }

    method RenameNoReplace(d1: Ino, n1: Name, d2: Ino, n2: Name) returns (r: Result<(), IoKind>)
      requires Valid() && IsDir(heap, d1) && IsDir(heap, d2)
      requires Lookup(heap, d1, n1).Some? && IsDir(heap, Lookup(heap, d1, n1).value)
               ==> d2 !in Subtree(heap, Lookup(heap, d1, n1).value)
      modifies this
      ensures Valid() && Ticked() && nextIno == old(nextIno)
      ensures r.Err? ==> heap == old(heap)
      ensures r.Ok? ==> MoveNoReplace(old(heap), d1, n1, d2, n2) == Ok(heap)
      ensures r.Ok? <==> faults(old(clock)) == None && MoveNoReplace(old(heap), d1, n1, d2, n2).Ok?
      ensures r.Err? && faults(old(clock)) == None ==> MoveNoReplace(old(heap), d1, n1, d2, n2) == Err(r.error)
    {
      clock := clock + 1;
      MoveWf(heap, d1, n1, d2, n2);
      if faults(clock - 1).Some? {
        r := Err(faults(clock - 1).value);
      } else {
        match MoveNoReplace(heap, d1, n1, d2, n2)
        case Ok(h) => heap, r := h, Ok(());
        case Err(k) => r := Err(k);
      }
      history := history + [heap];
    }

    method RemoveFile(d: Ino, n: Name) returns (r: Result<(), IoKind>)
      requires Valid() && IsDir(heap, d)
      modifies this
      ensures Valid() && Ticked() && nextIno == old(nextIno)
      ensures r.Err? ==> heap == old(heap)
      ensures r.Ok? ==> heap == Detach(old(heap), d, n)
      ensures r.Ok? <==> && faults(old(clock)) == None
                         && Lookup(old(heap), d, n).Some?
                         && !IsDir(old(heap), Lookup(old(heap), d, n).value)
    {
      clock := clock + 1;
      var e := Lookup(heap, d, n);
      if faults(clock - 1).Some? {
        r := Err(faults(clock - 1).value);
      } else if e == None {
        r := Err(NotFound);
      } else if IsDir(heap, e.value) {
        r := Err(IsADirectory);
      } else {
        DetachWf(heap, d, n);
        heap := Detach(heap, d, n);
        r := Ok(());
      }
      history := history + [heap];
    }

    /** Remove a random part of what is below `i`, then, unless the call fails, all of it together
        with the entries in `names`. */
    method Unlink(i: Ino, names: set<(Ino, Name)>, fault: Option<IoKind>) returns (r: Result<(), IoKind>)
      requires Valid() && IsDir(heap, i) && clock > 0
      modifies this`heap, this`history
      ensures Valid()
      ensures r.Ok? <==> fault == None
      ensures |history| == |old(history)| + 1 && old(history) <= history
      ensures Removed(old(heap), history[|old(history)|], heap, i, names, r.Ok?)
    {
      var below := Closure(heap, {i});
      var cut := set e | e in torn(clock - 1) && e.0 in below;
      ClosureIsSubtree(heap, i);
      TrimWf(heap, cut);
      TrimPruned(heap, cut, Subtree(heap, i));
      history := history + [Trim(heap, cut)];
      if fault.Some? {
        heap := Trim(heap, cut);
        r := Err(fault.value);
      } else {
        ClearWf(heap, i, names);
        heap := Clear(heap, i, names);
        r := Ok(());
      }
    }

    /** `remove_dir_all`: unlinks what is below the directory in any order, and may stop half way;
        a link is unlinked instead. */
    method RemoveDirAll(d: Ino, n: Name) returns (r: Result<(), IoKind>)
      requires Valid() && IsDir(heap, d)
      modifies this
      ensures Valid() && nextIno == old(nextIno) && clock == old(clock) + 1
      ensures |history| == |old(history)| + 2 && old(history) <= history && history[|old(history)| + 1] == heap
      ensures Lookup(old(heap), d, n) == None ==> r.Err? && heap == old(heap) == history[|old(history)|]
      ensures Lookup(old(heap), d, n).Some? ==>
                Removed(old(heap), history[|old(history)|], heap, Lookup(old(heap), d, n).value, {(d, n)}, r.Ok?)
      ensures r.Ok? <==> && faults(old(clock)) == None
                         && Lookup(old(heap), d, n).Some?
                         && !KeepsName(old(heap), Lookup(old(heap), d, n).value)
    {
      var fault := faults(clock);
      clock := clock + 1;
      var e := Lookup(heap, d, n);
      if e.Some? && IsDir(heap, e.value) {
        r := Unlink(e.value, {(d, n)}, fault);
      } else {
        r := UnlinkOther(d, n, fault);
      }
      history := history + [heap];
    }

    method UnlinkOther(d: Ino, n: Name, fault: Option<IoKind>) returns (r: Result<(), IoKind>)
      requires Valid() && IsDir(heap, d) && clock > 0
      requires Lookup(heap, d, n).Some? ==> !IsDir(heap, Lookup(heap, d, n).value)
      modifies this`heap, this`history
      ensures Valid() && history == old(history) + [old(heap)]
      ensures Lookup(old(heap), d, n) == None ==> r.Err? && heap == old(heap)
      ensures Lookup(old(heap), d, n).Some? ==>
                Removed(old(heap), old(heap), heap, Lookup(old(heap), d, n).value, {(d, n)}, r.Ok?)
      ensures r.Ok? <==> && fault == None
                         && Lookup(old(heap), d, n).Some?
                         && !KeepsName(old(heap), Lookup(old(heap), d, n).value)
    {
      history := history + [heap];
      var e := Lookup(heap, d, n);
      if e == None {
        r := Err(NotFound);
      } else if fault.Some? {
        r := Err(fault.value);
      } else if KeepsName(heap, e.value) {
        r := Err(NotADirectory);
      } else {
        DetachCleared(heap, d, n);
        heap := Detach(heap, d, n);
        r := Ok(());
      }
    }

    /** `remove_open_dir_all`: the same by handle; the directory's own name, which the caller need
        not know, is found by searching. */
    method RemoveOpenDirAll(i: Ino, ghost d: Ino, ghost n: Name) returns (r: Result<(), IoKind>)
      requires Valid() && IsDir(heap, i) && Lookup(heap, d, n) == Some(i)
      modifies this
      ensures Valid() && nextIno == old(nextIno) && clock == old(clock) + 1
      ensures |history| == |old(history)| + 2 && old(history) <= history && history[|old(history)| + 1] == heap
      ensures Removed(old(heap), history[|old(history)|], heap, i, {(d, n)}, r.Ok?)
      ensures r.Ok? <==> faults(old(clock)) == None
    {
      var fault := faults(clock);
      clock := clock + 1;
      var names := set e, m | e in heap && heap[e].Dir? && m in heap[e].entries && heap[e].entries[m] == i :: (e, m);
      OnlyName(heap, d, n, i, names);
      r := Unlink(i, names, fault);
      history := history + [heap];
    }
  }
}
