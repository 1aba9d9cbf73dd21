/** The table of open file descriptors. */
module FileTable {
  import opened Machine

  const MAX_DESCRIPTORS := 1024

  // ---- the table as a value ----

  /** What the slots stand for: nothing, or an open file. */
  type Table<D> = seq<Option<D>>

  ghost predicate IsLowestFree<D>(t: Table<D>, i: nat) {
    i < |t| && t[i] == None && forall k | 0 <= k < i :: t[k] != None
  }

  /** fs_find_file_descriptor: handle 1024 has a slot, but is not looked up. */
  function Resolve<D>(t: Table<D>, h: nat): Option<D>
    requires |t| == MAX_DESCRIPTORS
  {
    if h <= 0 || h >= MAX_DESCRIPTORS then None else t[h - 1]
  }

  /** A call, with the handle an open was given; 0 is a failed open. */
  datatype Op<D> = Open(file: D, handle: nat) | Close(handle: nat, accepted: bool)

  /** The call leads from t to t'. */
  ghost predicate Step<D>(t: Table<D>, op: Op<D>, t': Table<D>)
    requires |t| == MAX_DESCRIPTORS
  {
    match op
    case Open(file, h) =>
      if h == 0 then t' == t && forall i | 0 <= i < |t| :: t[i] != None
      else IsLowestFree(t, h - 1) && t' == t[h - 1 := Some(file)]
    case Close(h, accepted) =>
      t' == if accepted && Resolve(t, h) != None then t[h - 1 := None] else t
  }

  /** ts are the tables before and after each call. */
  ghost predicate Run<D>(ts: seq<Table<D>>, ops: seq<Op<D>>) {
    && |ts| == |ops| + 1
    && (forall i | 0 <= i < |ts| :: |ts[i]| == MAX_DESCRIPTORS)
    && forall i | 0 <= i < |ops| :: Step(ts[i], ops[i], ts[i + 1])
  }

  /** An open file stays in its slot until its handle is closed, and no other open is given the handle. */
  lemma {:induction false} FileStaysOpen<D>(ts: seq<Table<D>>, ops: seq<Op<D>>, h: nat, file: D, n: nat)
    requires Run(ts, ops) && n <= |ops| && 1 <= h <= MAX_DESCRIPTORS && ts[0][h - 1] == Some(file)
    requires forall i | 0 <= i < n :: ops[i].Close? ==> ops[i].handle != h
    ensures ts[n][h - 1] == Some(file)
    ensures forall i | 0 <= i < n :: ops[i].handle != h
  {
    if n > 0 {
      FileStaysOpen(ts, ops, h, file, n - 1);
      assert Step(ts[n - 1], ops[n - 1], ts[n - 1 + 1]);
    }
  }

  /** From the open that returned it to the close that ends it, a handle below 1024 resolves to its own file. */
  lemma HandleResolves<D>(ts: seq<Table<D>>, ops: seq<Op<D>>, file: D, h: nat)
    requires Run(ts, ops) && ops != [] && ops[0] == Open(file, h) && h > 0
    requires forall i | 1 <= i < |ops| :: ops[i].Close? ==> ops[i].handle != h
    ensures h <= MAX_DESCRIPTORS && Resolve(ts[0], h) == None
    ensures Resolve(ts[|ops|], h) == if h < MAX_DESCRIPTORS then Some(file) else None
  {
    assert Step(ts[0], ops[0], ts[0 + 1]);
    FileStaysOpen(ts[1..], ops[1..], h, file, |ops| - 1);
  }

  /** The last slot, once given out, is never free again: its handle is not looked up, so it cannot be closed. */
  lemma {:induction false} LastSlotIsLost<D>(ts: seq<Table<D>>, ops: seq<Op<D>>, file: D, n: nat)
    requires Run(ts, ops) && n <= |ops| && ts[0][MAX_DESCRIPTORS - 1] == Some(file)
    ensures ts[n][MAX_DESCRIPTORS - 1] == Some(file)
  {
    if n > 0 {
      LastSlotIsLost(ts, ops, file, n - 1);
      assert Step(ts[n - 1], ops[n - 1], ts[n - 1 + 1]);
    }
  }

  // ---- runs by their handles ----

  /** The handles that opens have been given and closes have not given back; a close of 1024 never does. */
  function OpenHandles<D>(ops: seq<Op<D>>): set<nat> {
    if ops == [] then {}
    else
      var open := OpenHandles(ops[..|ops| - 1]);
      match ops[|ops| - 1]
      case Open(_, h) => if h == 0 then open else open + {h}
      case Close(h, accepted) => if accepted && h < 1024 then open - {h} else open
  }

  /** In every run from the empty table the taken slots are those of the open handles. */
  lemma {:induction false} TakenAreOpen<D>(ts: seq<Table<D>>, ops: seq<Op<D>>, n: nat)
    requires Run(ts, ops) && n <= |ops| && forall i | 0 <= i < 1024 :: ts[0][i] == None
    ensures forall h | 1 <= h <= 1024 :: ts[n][h - 1] != None <==> h in OpenHandles(ops[..n])
    ensures forall h | h in OpenHandles(ops[..n]) :: 1 <= h <= 1024
  {
    if n > 0 {
      TakenAreOpen(ts, ops, n - 1);
      assert Step(ts[n - 1], ops[n - 1], ts[n - 1 + 1]);
      assert ops[..n][..n - 1] == ops[..n - 1];
    }
  }

  /** An open fails exactly when all 1024 handles are open, and otherwise is given the lowest that is not. */
  lemma OpenFailsIff<D>(ts: seq<Table<D>>, ops: seq<Op<D>>, n: nat)
    requires Run(ts, ops) && n < |ops| && ops[n].Open? && forall i | 0 <= i < 1024 :: ts[0][i] == None
    ensures ops[n].handle == 0 <==> |OpenHandles(ops[..n])| == 1024
    ensures ops[n].handle > 0 ==> ops[n].handle !in OpenHandles(ops[..n])
                                  && forall h | 1 <= h < ops[n].handle :: h in OpenHandles(ops[..n])
  {
    var open := OpenHandles(ops[..n]);
    TakenAreOpen(ts, ops, n);
    assert Step(ts[n], ops[n], ts[n + 1]);
    assert ops[n].handle > 0 ==> ops[n].handle !in open;
    if ops[n].handle == 0 {
      forall h: nat | 1 <= h <= 1024 ensures h in open {
        assert ts[n][h - 1] != None;
      }
    }
    AllHandles(open);
  }

  lemma AllHandles(open: set<nat>)
    requires forall h | h in open :: 1 <= h <= 1024
    ensures |open| == 1024 <==> forall h: nat | 1 <= h <= 1024 :: h in open
  {
    SubsetSize(open, FirstHandles(1024));
    assert (forall h: nat | 1 <= h <= 1024 :: h in open) <==> open == FirstHandles(1024);
  }

  function FirstHandles(n: nat): (s: set<nat>)
    ensures |s| == n && forall h: nat :: h in s <==> 1 <= h <= n
  {
    if n == 0 then {} else FirstHandles(n - 1) + {n}
  }

  lemma SubsetSize(a: set<nat>, b: set<nat>)
    requires a <= b
    ensures |a| <= |b| && (|a| == |b| <==> a == b)
  {
    assert b == a + (b - a);
    assert |b| == |a| + |b - a|;
  }

  /** How many opens were given a handle, and how many closes gave one back. */
  function Opened<D>(ops: seq<Op<D>>): nat {
    if ops == [] then 0 else Opened(ops[..|ops| - 1]) + (if ops[|ops| - 1].Open? && ops[|ops| - 1].handle > 0 then 1 else 0)
  }

  function Closed<D>(ops: seq<Op<D>>): nat {
    if ops == [] then 0
    else
      Closed(ops[..|ops| - 1])
      + match ops[|ops| - 1]
        case Open(_, _) => 0
        case Close(h, accepted) => if accepted && h < 1024 && h in OpenHandles(ops[..|ops| - 1]) then 1 else 0
  }

  /** So an open fails exactly when the opens exceed the closes that gave a handle back by 1024. */
  lemma OpenFailsByCount<D>(ts: seq<Table<D>>, ops: seq<Op<D>>, n: nat)
    requires Run(ts, ops) && n < |ops| && ops[n].Open? && forall i | 0 <= i < 1024 :: ts[0][i] == None
    ensures ops[n].handle == 0 <==> Opened(ops[..n]) - Closed(ops[..n]) == 1024
  {
    OpenFailsIff(ts, ops, n);
    OpenCount(ts, ops, n);
  }

  lemma {:induction false} OpenCount<D>(ts: seq<Table<D>>, ops: seq<Op<D>>, n: nat)
    requires Run(ts, ops) && n <= |ops| && forall i | 0 <= i < 1024 :: ts[0][i] == None
    ensures Opened(ops[..n]) - Closed(ops[..n]) == |OpenHandles(ops[..n])|
  {
    if n > 0 {
      OpenCount(ts, ops, n - 1);
      assert ops[..n][..n - 1] == ops[..n - 1];
      if ops[n - 1].Open? { OpenFailsIff(ts, ops, n - 1); }
    }
  }

  /** A handle below 1024 that the file system let go resolves to nothing until an open is given it again. */
  lemma {:induction false} ClosedStaysClosed<D>(ts: seq<Table<D>>, ops: seq<Op<D>>, h: nat, n: nat)
    requires Run(ts, ops) && 1 <= n <= |ops| && ops[0] == Close(h, true) && 1 <= h < 1024
    requires forall i | 1 <= i < n :: ops[i].Open? ==> ops[i].handle != h
    ensures ts[n][h - 1] == None && Resolve(ts[n], h) == None
  {
    if n > 1 { ClosedStaysClosed(ts, ops, h, n - 1); }
    assert Step(ts[n - 1], ops[n - 1], ts[n - 1 + 1]);
  }

  // ---- the table in memory ----

  class FileDescriptor<D> {
    const index: nat
    const file: D

    constructor (index: nat, file: D)
      ensures this.index == index && this.file == file
    {
      this.index, this.file := index, file;
    }
  }

  class Descriptors<D(==)> {
    const slots: array<FileDescriptor?<D>>

    /** Slot i holds nothing, or a descriptor with index i + 1. */
    ghost predicate Valid()
      reads slots
    {
      slots.Length == MAX_DESCRIPTORS && forall i | 0 <= i < slots.Length :: slots[i] != null ==> slots[i].index == i + 1
    }

    ghost function View(): Table<D>
      reads slots
    {
      seq(slots.Length, i requires 0 <= i < slots.Length reads slots => if slots[i] == null then None else Some(slots[i].file))
    }

    /** fs_init */
    constructor ()
      ensures Valid() && fresh(slots) && forall i | 0 <= i < MAX_DESCRIPTORS :: View()[i] == None
    {
      slots := new FileDescriptor?<D>[MAX_DESCRIPTORS](_ => null);
    }

    /** fs_new_file_descriptor: the lowest free slot, or null when there is none. */
    method NewDescriptor(file: D) returns (fd: FileDescriptor?<D>)
      requires Valid()
      modifies slots
      ensures Valid()
      ensures fd == null ==> View() == old(View()) && forall i | 0 <= i < MAX_DESCRIPTORS :: old(View())[i] != None
      ensures fd != null ==> fd.index >= 1 && IsLowestFree(old(View()), fd.index - 1)
                             && View() == old(View())[fd.index - 1 := Some(file)]
    {
      for i := 0 to MAX_DESCRIPTORS
        invariant forall k | 0 <= k < i :: slots[k] != null
        invariant Valid() && View() == old(View())
      {
        if slots[i] == null {
          fd := new FileDescriptor(i + 1, file);
          slots[i] := fd;
          return;
        }
      }
      return null;
    }

    /** fs_find_file_descriptor */
    method FindDescriptor(index: uint16) returns (fd: FileDescriptor?<D>)
      requires Valid()
      ensures fd != null <==> 1 <= index < 1024 && View()[index - 1] != None
      ensures fd == null <==> Resolve(View(), index) == None
      ensures fd != null ==> Resolve(View(), index) == Some(fd.file) && fd.index == index
    {
      if index <= 0 || index >= MAX_DESCRIPTORS {
        return null;
      }
      fd := slots[index - 1];
    }

    /** fs_free_file_descriptor, for a handle that has a slot. */
    method FreeDescriptor(fd: uint16) returns (status: int)
      requires Valid() && fd <= MAX_DESCRIPTORS
      modifies slots
      ensures Valid()
      ensures status == (if fd == 0 then FS_INVALID_FILE_DESCRIPTOR else if old(View())[fd - 1] == None then INVALID_ARGUMENT else OK)
      ensures View() == if status == OK then old(View())[fd - 1 := None] else old(View())
    {
      if fd <= 0 {
        return FS_INVALID_FILE_DESCRIPTOR;
      }
      if slots[fd - 1] == null {
        return INVALID_ARGUMENT;
      }
      slots[fd - 1] := null;
      status := OK;
    }

    /** fs_open, where `resolved` is what path, disk and file system make of the name: None is an error. */
    method Open(resolved: Option<D>) returns (handle: nat)
      requires Valid()
      modifies slots
      ensures Valid()
      ensures resolved == None ==> handle == 0 && View() == old(View())
      ensures resolved != None && handle == 0 ==> View() == old(View()) && forall i | 0 <= i < 1024 :: View()[i] != None
      ensures resolved != None && handle != 0 ==>
                && 1 <= handle <= 1024 && old(View())[handle - 1] == None && (forall i | 0 <= i < handle - 1 :: View()[i] != None)
                && View() == old(View())[handle - 1 := resolved]
      ensures resolved != None ==> Step(old(View()), Op.Open(resolved.value, handle), View())
    {
      if resolved == None {
        return 0;
      }
      var fd := NewDescriptor(resolved.value);
      if fd == null {
        return 0;
      }
      return fd.index;
    }

    /** fs_close, where `accepted` is the file system's answer. */
    method Close(fd: uint16, accepted: bool) returns (status: int)
      requires Valid()
      modifies slots
      ensures Valid() && Step(old(View()), Op.Close(fd, accepted), View())
      ensures View() == if accepted && 1 <= fd < 1024 then old(View())[fd - 1 := None] else old(View())
      ensures status == if Resolve(old(View()), fd) == None then FS_INVALID_FILE_DESCRIPTOR else if !accepted then SYSTEM_FAIL else OK
    {
      var descriptor := FindDescriptor(fd);
      if descriptor == null {
        return FS_INVALID_FILE_DESCRIPTOR;
      }
      if !accepted {
        return SYSTEM_FAIL;
      }
      var freed := FreeDescriptor(fd);
      return OK;
    }
  }
}
