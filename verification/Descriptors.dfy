/** The eight-entry descriptor table of a process: open, close and read (syscall.c, filesys.c). */
module Descriptors {
  import opened Common
  import opened FileSystem
  import opened Lines

  const MAX_FILES := 8

  /** Which table of file operations a descriptor points at. */
  datatype Ops = Nul | Rtc | Dir | File | Stdin | Stdout

  datatype Fd = Fd(ops: Ops, inode: nat, fpos: nat, flags: bool)

  type Table = t: seq<Fd> | |t| == MAX_FILES witness seq(MAX_FILES, _ => Fd(Nul, 0, 0, false))

  /** The table that system_execute gives a new process. */
  function Fresh(): Table {
    var unused := Fd(Nul, 0, 0, false);
    [Fd(Stdin, 0, 0, true), Fd(Stdout, 0, 0, true), unused, unused, unused, unused, unused, unused]
  }

  datatype Call = Open(name: string) | Close(fd: int) | Read(fd: int, nbytes: int)

  /** What a call gives back. `Device` is a read from the terminal or the RTC. */
  datatype Outcome = Failed | Opened(fd: nat) | Closed | Bytes(s: string) | Device

  /** The lowest descriptor whose flag is clear, or the size of the table. */
  function LowestFree(t: seq<Fd>): (fd: nat)
    ensures fd <= |t|
    ensures fd < |t| ==> !t[fd].flags
    ensures forall i :: 0 <= i < fd ==> t[i].flags
  {
    if t == [] || !t[0].flags then 0 else 1 + LowestFree(t[1..])
  }

  lemma LowestFreeIs(t: seq<Fd>, fd: nat)
    requires fd <= |t| && (fd < |t| ==> !t[fd].flags) && forall i :: 0 <= i < fd ==> t[i].flags
    ensures LowestFree(t) == fd
  {}

  /** An unknown file type leaves the old operations in place. */
  function OpsFor(filetype: nat, old_: Ops): Ops {
    match filetype case 0 => Rtc case 1 => Dir case 2 => File case _ => old_
  }

  function OpenStep(img: Image, t: Table, name: string): (Table, Outcome)
    requires img.Valid()
  {
    match Lookup(img, name)
    case None => (t, Failed)
    case Some(d) =>
      var fd := LowestFree(t);
      if fd == MAX_FILES then (t, Failed)
      else
        var ops := OpsFor(d.filetype, t[fd].ops);
        (t[fd := Fd(ops, if d.filetype <= 1 then 0 else d.inode, 0, true)], if ops.Nul? then Failed else Opened(fd))
  }

  function CloseStep(t: Table, fd: int): (Table, Outcome) {
    if fd < 2 || fd > 7 || !t[fd].flags then (t, Failed)
    else (t[fd := t[fd].(flags := false)], if t[fd].ops.Nul? || t[fd].ops.Stdin? || t[fd].ops.Stdout? then Failed else Closed)
  }

  /** file_read: -1 leaves the position where it was. */
  function FileReadStep(img: Image, f: Fd, nbytes: int): (Fd, Outcome)
    requires img.Valid() && f.inode < |img.inodes|
  {
    if nbytes < 0 then (f, Failed)
    else if f.fpos >= img.inodes[f.inode].len then (f, Bytes([]))
    else
      match Slice(img, f.inode, f.fpos, nbytes)
      case None => (f, Failed)
      case Some(bytes) => (f.(fpos := f.fpos + |bytes|), Bytes(bytes))
  }

  /** directory_read: one name a call, cut to the caller's buffer. */
  function DirReadStep(img: Image, f: Fd, nbytes: int): (Fd, Outcome)
    requires img.Valid()
  {
    if nbytes <= 0 then (f, Failed)
    else
      match ReadDentryByIndex(img, f.fpos)
      case None => (f, Bytes([]))
      case Some(d) => (f.(fpos := f.fpos + 1), Bytes(Name(d)[..Min(nbytes, |Name(d)|)]))
  }

  function ReadFd(img: Image, f: Fd, nbytes: int): (Fd, Outcome)
    requires img.Valid() && (f.ops.File? ==> f.inode < |img.inodes|)
  {
    match f.ops
    case File => FileReadStep(img, f, nbytes)
    case Dir => DirReadStep(img, f, nbytes)
    case Nul => (f, Failed)
    case _ => (f, Device)
  }

  function ReadStep(img: Image, t: Table, fd: int, nbytes: int): (Table, Outcome)
    requires img.Valid() && FilesExist(img, t)
  {
    if fd < 0 || fd > 7 || fd == 1 || !t[fd].flags then (t, Failed)
    else
      var (f, outcome) := ReadFd(img, t[fd], nbytes);
      (t[fd := f], outcome)
  }

  // ----- Runs -----

  /** Every entry that a descriptor could open as a file names an inode of the image. */
  ghost predicate EntriesExist(img: Image)
    requires img.Valid()
  {
    forall d :: d in img.dentries && d.filetype >= 2 ==> d.inode < |img.inodes|
  }

  ghost predicate FilesExist(img: Image, t: Table) {
    forall i :: 0 <= i < MAX_FILES && t[i].ops.File? ==> t[i].inode < |img.inodes|
  }

  function Perform(img: Image, t: Table, call: Call): (r: (Table, Outcome))
    requires img.Valid() && FilesExist(img, t)
    ensures EntriesExist(img) ==> FilesExist(img, r.0)
    ensures t[0].flags && t[1].flags ==> r.0[0].flags && r.0[1].flags
  {
    match call
    case Open(name) => OpenStep(img, t, name)
    case Close(fd) => CloseStep(t, fd)
    case Read(fd, nbytes) => ReadStep(img, t, fd, nbytes)
  }

  /** What a process sees of a run: its calls and their outcomes, latest last. */
  type Trace = seq<(Call, Outcome)>

  /** The bytes that reads of `fd` have returned since it was last opened. */
  function Returned(trace: Trace, fd: nat): string {
    if trace == [] then [] else
      var (call, outcome) := trace[|trace| - 1];
      if call.Open? && outcome == Opened(fd) then []
      else Returned(trace[..|trace| - 1], fd)
           + if call.Read? && call.fd == fd && outcome.Bytes? then outcome.s else []
  }

  /** An open file has handed out exactly its first `fpos` bytes since it was opened. */
  ghost predicate FaithfulFd(img: Image, trace: Trace, t: Table, fd: nat)
    requires img.Valid() && FilesExist(img, t) && fd < MAX_FILES
  {
    t[fd].flags && t[fd].ops.File? ==>
      && t[fd].fpos <= img.inodes[t[fd].inode].len
      && Returned(trace, fd) == Contents(img, t[fd].inode)[..t[fd].fpos]
  }

  lemma ReturnedGrows(trace: Trace, call: Call, outcome: Outcome, fd: nat)
    ensures Returned(trace + [(call, outcome)], fd) ==
      if call.Open? && outcome == Opened(fd) then []
      else if call.Read? && call.fd == fd && outcome.Bytes? then Returned(trace, fd) + outcome.s
      else Returned(trace, fd)
  {
    var longer := trace + [(call, outcome)];
    assert longer[..|longer| - 1] == trace;
    assert Returned(trace, fd) + [] == Returned(trace, fd);
  }

  /** A file read hands out the bytes between the old position and the new one. */
  lemma FileReadAdvances(img: Image, f: Fd, nbytes: int)
    requires img.Valid() && f.inode < |img.inodes| && f.fpos <= img.inodes[f.inode].len
    ensures FileReadStep(img, f, nbytes).0 == f.(fpos := FileReadStep(img, f, nbytes).0.fpos)
    ensures f.fpos <= FileReadStep(img, f, nbytes).0.fpos <= img.inodes[f.inode].len
    ensures match FileReadStep(img, f, nbytes).1
      case Bytes(s) => Contents(img, f.inode)[..f.fpos] + s ==
                       Contents(img, f.inode)[..FileReadStep(img, f, nbytes).0.fpos]
      case _ => FileReadStep(img, f, nbytes).0 == f
  {
    hide Readable;
  }

  /** One call, on one descriptor: the call's own bytes extend what the descriptor has returned, and no
      other descriptor notices. */
  lemma PerformKeepsFaithful(img: Image, trace: Trace, t: Table, call: Call, fd: nat)
    requires img.Valid() && FilesExist(img, t) && fd < MAX_FILES && FaithfulFd(img, trace, t, fd)
    requires FilesExist(img, Perform(img, t, call).0)
    ensures FaithfulFd(img, trace + [(call, Perform(img, t, call).1)], Perform(img, t, call).0, fd)
  {
    hide Contents, FileReadStep;
    ReturnedGrows(trace, call, Perform(img, t, call).1, fd);
    if call.Read? && call.fd == fd && t[fd].flags && t[fd].ops.File? {
      FileReadAdvances(img, t[fd], call.nbytes);
    }
  }

  ghost function Extend(img: Image, run: (Table, Trace), call: Call): (Table, Trace)
    requires img.Valid() && FilesExist(img, run.0)
  {
    (Perform(img, run.0, call).0, run.1 + [(call, Perform(img, run.0, call).1)])
  }

  /** A process that starts with a fresh table and makes these calls. */
  ghost function Run(img: Image, calls: seq<Call>): (r: (Table, Trace))
    requires img.Valid() && EntriesExist(img)
    ensures FilesExist(img, r.0) && r.0[0].flags && r.0[1].flags
  {
    if calls == [] then (Fresh(), []) else Extend(img, Run(img, calls[..|calls| - 1]), calls[|calls| - 1])
  }

  /** Over every interleaving of open, close and read, each open file returns its bytes in order, from the
      first, without loss or repetition, whatever sizes the reads ask for. */
  lemma {:induction false} DescriptorsAreFaithful(img: Image, calls: seq<Call>, fd: nat)
    requires img.Valid() && EntriesExist(img) && fd < MAX_FILES
    ensures FaithfulFd(img, Run(img, calls).1, Run(img, calls).0, fd)
    decreases |calls|
  {
    if calls != [] {
      var init := calls[..|calls| - 1];
      var (t, trace) := Run(img, init);
      DescriptorsAreFaithful(img, init, fd);
      PerformKeepsFaithful(img, trace, t, calls[|calls| - 1], fd);
    }
  }

  /** In every run, a successful open returns the lowest free descriptor, and that is never 0 or 1. */
  lemma OpenTakesLowestFree(img: Image, calls: seq<Call>, name: string)
    requires img.Valid() && EntriesExist(img)
    ensures var t, r, outcome := Run(img, calls).0, OpenStep(img, Run(img, calls).0, name).0,
                                 OpenStep(img, Run(img, calls).0, name).1;
      outcome.Opened? ==>
        && 2 <= outcome.fd < MAX_FILES && !t[outcome.fd].flags && r[outcome.fd].flags
        && (forall i :: 0 <= i < outcome.fd ==> t[i].flags)
        && (forall i :: 0 <= i < MAX_FILES && i != outcome.fd ==> r[i] == t[i])
  {}

  /** A failed open takes a descriptor exactly when the entry has no known file type and the descriptor was
      never opened before. */
  lemma FailedOpenLeaksIff(img: Image, t: Table, name: string)
    requires img.Valid()
    ensures OpenStep(img, t, name).1.Failed? && OpenStep(img, t, name).0 != t <==>
        && Lookup(img, name).Some? && Lookup(img, name).value.filetype > 2
        && LowestFree(t) < MAX_FILES && t[LowestFree(t)].ops.Nul?
  {}

  /** An image whose only entry has a file type that open does not know. */
  function OddImage(): (img: Image)
    ensures img.Valid() && EntriesExist(img)
  {
    var odd := Dentry("odd" + seq(29, _ => '\0'), 3, 0);
    Image(seq(NUM_DENTRIES, _ => odd), odd, [Inode(0, seq(BLOCKS_PER_INODE, _ => 0))], [])
  }

  /** A new process loses a descriptor to each of its first six attempts to open that entry, and then has
      none left. */
  lemma {:induction false} FailedOpensLeakAll(calls: seq<Call>)
    requires |calls| <= 6 && forall call :: call in calls ==> call == Call.Open("odd")
    ensures Run(OddImage(), calls).0 == Leaked(|calls|)
    ensures OpenStep(OddImage(), Leaked(|calls|), "odd") == (Leaked(if |calls| < 6 then |calls| + 1 else 6), Failed)
    decreases |calls|
  {
    hide OddImage, OpenStep;
    OddOpen(|calls|);
    if calls == [] {
      assert Leaked(0) == Fresh();
    } else {
      var init := calls[..|calls| - 1];
      assert calls[|calls| - 1] in calls && forall call :: call in init ==> call in calls;
      FailedOpensLeakAll(init);
    }
  }

  /** A new process's table after `k` of its descriptors are taken for nothing. */
  function Leaked(k: nat): Table {
    seq(MAX_FILES, i => Fd(if i == 0 then Stdin else if i == 1 then Stdout else Nul, 0, 0, i < 2 + k))
  }

  lemma OddOpen(k: nat)
    requires k <= 6
    ensures OpenStep(OddImage(), Leaked(k), "odd") == (Leaked(if k < 6 then k + 1 else 6), Failed)
  {
    hide OddImage, Lookup;
    OddIsFound();
    LowestFreeIs(Leaked(k), 2 + k);
    assert k < 6 ==> Leaked(k)[2 + k := Fd(Nul, 0, 0, true)] == Leaked(k + 1);
  }

  lemma OddIsFound()
    ensures Lookup(OddImage(), "odd").Some? && Lookup(OddImage(), "odd").value == Dentry("odd" + seq(29, _ => '\0'), 3, 0)
  {
    var d := OddImage().dentries[0];
    assert d.name[..3] == "odd";
    FindIs(d.name, '\0', 3);
  }

  /** Looking up a listed name gives its own entry, for every listed entry, if and only if listed entries that
      share a name are alike. */
  lemma LookupUndoesListingIff(img: Image)
    requires img.Valid()
    ensures var n := FirstNamed(img.dentries, []);
      (forall i :: 0 <= i < n ==> Lookup(img, Name(img.dentries[i])) == Some(img.dentries[i])) <==>
      (forall i, j :: 0 <= i < j < n && Name(img.dentries[i]) == Name(img.dentries[j]) ==>
         img.dentries[i] == img.dentries[j])
  {
    hide Lookup, Clip, Name, FirstNamed;
    var n := FirstNamed(img.dentries, []);
    if forall i, j :: 0 <= i < j < n && Name(img.dentries[i]) == Name(img.dentries[j]) ==>
         img.dentries[i] == img.dentries[j]
    {
      forall i | 0 <= i < n ensures Lookup(img, Name(img.dentries[i])) == Some(img.dentries[i]) {
        ListedIsFound(img, i);
      }
    }
    forall i, j | 0 <= i < j < n && Name(img.dentries[i]) == Name(img.dentries[j])
      ensures Lookup(img, Name(img.dentries[i])) == Lookup(img, Name(img.dentries[j]))
    {}
  }

  /** It finds that very place in the table, for every listed entry, if and only if no two share a name. */
  lemma LookupFindsPlaceIff(img: Image)
    requires img.Valid()
    ensures var n := FirstNamed(img.dentries, []);
      (forall i :: 0 <= i < n ==> FirstNamed(img.dentries, Clip(Name(img.dentries[i]))) == i) <==>
      (forall i, j :: 0 <= i < j < n ==> Name(img.dentries[i]) != Name(img.dentries[j]))
  {}

  /** What lookup finds of the name of entry `i`: the first entry so named. */
  ghost predicate ListedAt(img: Image, i: nat)
    requires img.Valid() && i < NUM_DENTRIES
  {
    var k := FirstNamed(img.dentries, Name(img.dentries[i]));
    && k <= i && Name(img.dentries[k]) == Name(img.dentries[i])
    && Clip(Name(img.dentries[i])) == Name(img.dentries[i])
    && Lookup(img, Name(img.dentries[i])) == Some(img.dentries[k])
  }

  lemma ListedIsFound(img: Image, i: nat)
    requires img.Valid() && i < FirstNamed(img.dentries, [])
    ensures ListedAt(img, i)
  {
    assert img.dentries[i] in img.dentries;
  }

  // ----- What one call does -----

  /** A read of an open file returns the next bytes of the file, as many as were asked for and are left, and
      moves on by as many; it fails exactly when the size is negative or one of their blocks is missing. No
      other descriptor changes. */
  lemma ReadGivesFile(img: Image, t: Table, fd: int, nbytes: int)
    requires img.Valid() && FilesExist(img, t) && 0 <= fd < 8 && fd != 1 && t[fd].flags && t[fd].ops.File?
    requires t[fd].fpos <= img.inodes[t[fd].inode].len
    ensures var (r, outcome) := Perform(img, t, Call.Read(fd, nbytes));
      var f, len := t[fd], img.inodes[t[fd].inode].len;
      var n := if nbytes < len - f.fpos then nbytes else len - f.fpos;
      if nbytes < 0 || exists k: nat :: f.fpos <= k < f.fpos + n && Missing(img, f.inode, k) then
        outcome == Failed && r == t
      else
        && outcome == Bytes(Contents(img, f.inode)[f.fpos..f.fpos + n])
        && r == t[fd := f.(fpos := f.fpos + n)]
  {
    hide Contents;
    var f, len := t[fd], img.inodes[t[fd].inode].len;
    if f.fpos < len && nbytes >= 0 {
      UnreadableIff(img, f.inode, f.fpos, f.fpos + Min(nbytes, len - f.fpos));
    }
    assert f.fpos == len ==> Contents(img, f.inode)[len..len] == [];
    assert t[fd := f] == t;
  }

  /** A read of an open directory returns the name of the entry at the position, cut to the size, and moves on
      by one entry; past the table it returns nothing. It fails exactly when the size is not positive. */
  lemma ReadGivesName(img: Image, t: Table, fd: int, nbytes: int)
    requires img.Valid() && FilesExist(img, t) && 0 <= fd < 8 && fd != 1 && t[fd].flags && t[fd].ops.Dir?
    ensures var (r, outcome) := Perform(img, t, Call.Read(fd, nbytes));
      if nbytes <= 0 then outcome == Failed && r == t
      else if t[fd].fpos >= 63 then outcome == Bytes([]) && r == t
      else
        var name := Name(img.dentries[t[fd].fpos]);
        && outcome == Bytes(if nbytes < |name| then name[..nbytes] else name)
        && r == t[fd := t[fd].(fpos := t[fd].fpos + 1)]
  {
    hide Name;
  }

  /** Reads of what is not an open descriptor, or of the standard output, fail and change nothing. */
  lemma ReadRefuses(img: Image, t: Table, fd: int, nbytes: int)
    requires img.Valid() && FilesExist(img, t)
    requires fd < 0 || fd >= 8 || fd == 1 || !t[fd].flags || t[fd].ops.Nul?
    ensures Perform(img, t, Call.Read(fd, nbytes)) == (t, Failed)
  {
    if 0 <= fd < 8 {
      assert t[fd := t[fd]] == t;
    }
  }

  /** A close frees exactly its own descriptor, if that is an open one from 2 to 7, and otherwise fails and
      changes nothing. */
  lemma CloseFreesItsOwn(img: Image, t: Table, fd: int)
    requires img.Valid() && FilesExist(img, t)
    ensures var (r, outcome) := Perform(img, t, Call.Close(fd));
      if 2 <= fd <= 7 && t[fd].flags then
        && !r[fd].flags && (forall i :: 0 <= i < 8 && i != fd ==> r[i] == t[i])
        && (outcome == Closed <==> t[fd].ops.Rtc? || t[fd].ops.Dir? || t[fd].ops.File?)
      else outcome == Failed && r == t
  {}

  /** After an open, reads start at the beginning of what the name stands for: the contents of the first entry
      that matches it, or the names of the directory. */
  lemma OpenedReadsEntry(img: Image, t: Table, name: string, i: nat, nbytes: nat)
    requires img.Valid() && EntriesExist(img) && FilesExist(img, t) && t[0].flags && t[1].flags && NulFree(name)
    requires i < 63 && Matches(img.dentries[i], name) && forall j :: 0 <= j < i ==> !Matches(img.dentries[j], name)
    requires Perform(img, t, Call.Open(name)).1.Opened? && nbytes > 0
    ensures var (after, outcome) := Perform(img, t, Call.Open(name));
      var d, first := img.dentries[i], Perform(img, after, Call.Read(outcome.fd, nbytes)).1;
      match d.filetype
      case 0 => first == Device
      case 1 =>
        var listed := Name(img.dentries[0]);
        first == Bytes(if nbytes < |listed| then listed[..nbytes] else listed)
      case 2 =>
        && d.inode < |img.inodes|
        && var n := if nbytes < img.inodes[d.inode].len then nbytes else img.inodes[d.inode].len;
           first == if exists k: nat :: k < n && Missing(img, d.inode, k) then Failed
                    else Bytes(Contents(img, d.inode)[..n])
      case _ => true
  {
    hide Contents, Name, Matches, Lookup, Perform;
    LookupIsFirstMatch(img, name);
    var (after, outcome) := Perform(img, t, Call.Open(name));
    OpenSets(img, t, name);
    var d := img.dentries[i];
    assert Lookup(img, name) == Some(d);
    assert d in img.dentries;
    if d.filetype == 1 {
      ReadGivesName(img, after, outcome.fd, nbytes);
    } else if d.filetype == 2 {
      ReadGivesFile(img, after, outcome.fd, nbytes);
    } else if d.filetype == 0 {
      DeviceRead(img, after, outcome.fd, nbytes);
    }
  }

  lemma ReadIs(img: Image, t: Table, fd: int, nbytes: int)
    requires img.Valid() && FilesExist(img, t)
    ensures Perform(img, t, Call.Read(fd, nbytes)) == ReadStep(img, t, fd, nbytes)
  {}

  lemma NameFits(img: Image, i: nat)
    requires img.Valid()
    ensures i < NUM_DENTRIES ==> |Name(img.dentries[i])| <= FILENAME_LEN
  {
    if i < NUM_DENTRIES {
      assert img.dentries[i] in img.dentries;
    }
  }

  /** Reads of the terminal and the clock go to their devices and leave the table alone. */
  lemma DeviceRead(img: Image, t: Table, fd: nat, nbytes: int)
    requires img.Valid() && FilesExist(img, t) && fd < 8 && fd != 1 && t[fd].flags && (t[fd].ops.Rtc? || t[fd].ops.Stdin?)
    ensures Perform(img, t, Call.Read(fd, nbytes)) == (t, Device)
  {
    assert t[fd := t[fd]] == t;
  }

  lemma OpenSets(img: Image, t: Table, name: string)
    requires img.Valid() && FilesExist(img, t) && t[0].flags && t[1].flags && Lookup(img, name).Some?
    ensures var (r, outcome) := Perform(img, t, Call.Open(name));
      var d := Lookup(img, name).value;
      outcome.Opened? ==>
        && 2 <= outcome.fd < 8 && r[outcome.fd].flags && r[outcome.fd].fpos == 0
        && (d.filetype == 0 ==> r[outcome.fd].ops == Rtc)
        && (d.filetype == 1 ==> r[outcome.fd].ops == Dir)
        && (d.filetype == 2 ==> r[outcome.fd].ops == File && r[outcome.fd].inode == d.inode)
  {
    hide Lookup;
  }

  // ----- The system calls -----

  class Process {
    const img: Image
    const fdArr: array<Fd>

    ghost predicate Valid()
      reads fdArr
    {
      img.Valid() && EntriesExist(img) && fdArr.Length == MAX_FILES && FilesExist(img, fdArr[..])
    }

    /** The descriptor part of system_execute. */
    constructor (img: Image)
      requires img.Valid() && EntriesExist(img)
      ensures Valid() && fresh(fdArr) && this.img == img && fdArr[..] == Fresh()
    {
      this.img := img;
      fdArr := new Fd[MAX_FILES](i requires 0 <= i < MAX_FILES => Fresh()[i]);
      new;
      assert fdArr[..] == Fresh();
    }

    method Populate(fd: nat, d: Dentry)
      requires fd < fdArr.Length
      modifies fdArr
      ensures fdArr[..] == old(fdArr[..])[fd :=
        Fd(OpsFor(d.filetype, old(fdArr[fd]).ops), if d.filetype <= 1 then 0 else d.inode, 0, true)]
    {
      match d.filetype {
        case 0 => fdArr[fd] := fdArr[fd].(ops := Rtc);
        case 1 => fdArr[fd] := fdArr[fd].(ops := Dir);
        case 2 => fdArr[fd] := fdArr[fd].(ops := File);
        case _ =>
      }
      if d.filetype == 0 || d.filetype == 1 {
        fdArr[fd] := fdArr[fd].(inode := 0);
      } else {
        fdArr[fd] := fdArr[fd].(inode := d.inode);
      }
      fdArr[fd] := fdArr[fd].(fpos := 0);
      fdArr[fd] := fdArr[fd].(flags := true);
    }

    method Open(filename: string) returns (r: int)
      requires Valid() && NulFree(filename)
      modifies fdArr
      ensures Valid() && r >= -1
      ensures fdArr[..] == OpenStep(img, old(fdArr[..]), filename).0
      ensures OpenStep(img, old(fdArr[..]), filename).1 == if r == -1 then Failed else Opened(r)
    {
      hide Matches, Lookup;
      ghost var t := fdArr[..];
      var dentry := ReadDentryByName(img, filename);
      if dentry.None? {
        return -1;
      }
      var openFd := -1;
      for i := 0 to MAX_FILES
        invariant forall j :: 0 <= j < i ==> fdArr[j].flags
      {
        if !fdArr[i].flags {
          openFd := i;
          break;
        }
      }
      LowestFreeIs(t, if openFd == -1 then MAX_FILES else openFd);
      if openFd == -1 {
        return -1;
      }
      Populate(openFd, dentry.value);
      return if fdArr[openFd].ops.Nul? then -1 else openFd;
    }

    method Close(fd: int) returns (r: int)
      requires Valid()
      modifies fdArr
      ensures Valid()
      ensures fdArr[..] == CloseStep(old(fdArr[..]), fd).0
      ensures CloseStep(old(fdArr[..]), fd).1 == if r == -1 then Failed else Closed
    {
      if fd < 2 || fd > 7 || !fdArr[fd].flags {
        return -1;
      }
      fdArr[fd] := fdArr[fd].(flags := false);
      var ops := fdArr[fd].ops;
      return if ops.Nul? || ops.Stdin? || ops.Stdout? then -1 else 0;
    }

    /** file_read */
    method FileRead(fd: int, buf: array<char>, nbytes: int) returns (r: int)
      requires Valid() && 0 <= fd < MAX_FILES && fdArr[fd].ops.File?
      requires nbytes <= buf.Length && nbytes < U32 / 2
      modifies fdArr, buf
      ensures Valid()
      ensures fdArr[..] == old(fdArr[..])[fd := FileReadStep(img, old(fdArr[fd]), nbytes).0]
      ensures match FileReadStep(img, old(fdArr[fd]), nbytes).1
        case Bytes(s) => r == |s| <= buf.Length && buf[..r] == s
        case _ => r == -1
    {
      if nbytes < 0 {
        return -1;
      }
      var f := fdArr[fd];
      var len := img.inodes[f.inode].len;
      if f.fpos >= len {
        return 0;
      }
      var bytesToRead := nbytes;
      if (f.fpos + nbytes) % U32 > len {
        bytesToRead := len - f.fpos;
      }
      r := ReadData(img, f.inode, f.fpos, buf, bytesToRead);
      if r < 0 {
        return -1;
      }
      fdArr[fd] := fdArr[fd].(fpos := f.fpos + r);
      assert fdArr[..] == old(fdArr[..])[fd := FileReadStep(img, f, nbytes).0];
    }

    /** directory_read */
    method DirectoryRead(fd: int, buf: array<char>, nbytes: int) returns (r: int)
      requires Valid() && 0 <= fd < MAX_FILES && nbytes <= buf.Length
      modifies fdArr, buf
      ensures Valid()
      ensures fdArr[..] == old(fdArr[..])[fd := DirReadStep(img, old(fdArr[fd]), nbytes).0]
      ensures match DirReadStep(img, old(fdArr[fd]), nbytes).1
        case Bytes(s) => r == |s| <= buf.Length && buf[..r] == s
        case _ => r == -1
      ensures var listed := nbytes > 0 && old(fdArr[fd].fpos) < NUM_DENTRIES;
        forall k :: (if r < 0 then 0 else r) <= k < buf.Length ==>
          buf[k] == if listed && k == r < nbytes then '\0' else old(buf[k])
    {
      var filePosInDir := fdArr[fd].fpos;
      if nbytes <= 0 {
        return -1;
      }
      var dentry := ReadDentryByIndex(img, filePosInDir);
      if dentry.None? {
        return 0;
      }
      var lenFilename := StrLen(dentry.value);
      if lenFilename > FILENAME_LEN {
        lenFilename := FILENAME_LEN;
      }
      r := Min(nbytes, lenFilename);
      for i := 0 to r
        modifies buf
        invariant buf[..i] == Name(dentry.value)[..i]
        invariant forall k :: i <= k < buf.Length ==> buf[k] == old(buf[k])
      {
        buf[i] := dentry.value.name[i];
      }
      if r < nbytes {
        buf[r] := '\0';
      }
      fdArr[fd] := fdArr[fd].(fpos := filePosInDir + 1);
      assert fdArr[..] == old(fdArr[..])[fd := DirReadStep(img, old(fdArr[fd]), nbytes).0];
    }

    /** read dispatches on the descriptor. The terminal and the RTC are devices outside this model. */
    method Read(fd: int, buf: array<char>, nbytes: int) returns (device: bool, r: int)
      requires Valid() && nbytes <= buf.Length && nbytes < U32 / 2
      modifies fdArr, buf
      ensures Valid()
      ensures fdArr[..] == ReadStep(img, old(fdArr[..]), fd, nbytes).0
      ensures match ReadStep(img, old(fdArr[..]), fd, nbytes).1
        case Bytes(s) => !device && r == |s| <= buf.Length && buf[..r] == s
        case Device => device
        case _ => !device && r == -1
    {
      if fd < 0 || fd > 7 || fd == 1 || !fdArr[fd].flags {
        return false, -1;
      }
      match fdArr[fd].ops {
        case Nul => return false, -1;
        case File => device := false; r := FileRead(fd, buf, nbytes);
        case Dir => device := false; r := DirectoryRead(fd, buf, nbytes);
        case _ => return true, 0;
      }
    }

    /** One read of ece391ls.c. */
    method ReadName(fd: int, buf: array<char>) returns (cnt: int)
      requires Valid() && 2 <= fd < MAX_FILES && fdArr[fd].flags && fdArr[fd].ops.Dir? && buf.Length > FILENAME_LEN
      modifies fdArr, buf
      ensures Valid() && fdArr[fd].flags && fdArr[fd].ops.Dir?
      ensures fdArr[fd].fpos == if old(fdArr[fd].fpos) < NUM_DENTRIES then old(fdArr[fd].fpos) + 1 else old(fdArr[fd].fpos)
      ensures 0 <= cnt <= FILENAME_LEN
      ensures buf[..cnt] == if old(fdArr[fd].fpos) < NUM_DENTRIES then Name(img.dentries[old(fdArr[fd].fpos)]) else []
    {
      hide Name, Perform;
      ghost var t := fdArr[..];
      NameFits(img, fdArr[fd].fpos);
      ReadGivesName(img, t, fd, FILENAME_LEN);
      ReadIs(img, t, fd, FILENAME_LEN);
      var _, n := Read(fd, buf, FILENAME_LEN);
      cnt := n;
    }

    /** The loop of ece391ls.c: the names it prints. */
    method Ls(fd: int) returns (names: seq<string>)
      requires Valid() && 2 <= fd < MAX_FILES && fdArr[fd].flags && fdArr[fd].ops.Dir? && fdArr[fd].fpos == 0
      modifies fdArr
      ensures Valid()
      ensures |names| == FirstNamed(img.dentries, [])
      ensures forall i :: 0 <= i < |names| ==> names[i] == Name(img.dentries[i])
    {
      hide Name;
      var buf := new char[FILENAME_LEN + 1];
      names := [];
      while true
        invariant Valid() && fdArr[fd].flags && fdArr[fd].ops.Dir? && fdArr[fd].fpos == |names| <= NUM_DENTRIES
        invariant forall i :: 0 <= i < |names| ==> names[i] == Name(img.dentries[i]) != []
        decreases NUM_DENTRIES - |names|
      {
        var cnt := ReadName(fd, buf);
        if cnt == 0 {
          return;
        }
        names := names + [buf[..cnt]];
      }
    }

    /** The loop of ece391cat.c: what it writes to its standard output. */
    method Cat(fd: int) returns (ok: bool, output: string)
      requires Valid() && 2 <= fd < MAX_FILES && fdArr[fd].flags && fdArr[fd].ops.File? && fdArr[fd].fpos == 0
      modifies fdArr
      ensures Valid()
      ensures ok <==> Readable(img, old(fdArr[fd].inode), 0, img.inodes[old(fdArr[fd].inode)].len)
      ensures ok ==> output == Contents(img, old(fdArr[fd].inode))
    {
      var buf := new char[1024];
      output := [];
      ghost var inode := fdArr[fd].inode;
      while true
        invariant Valid() && fdArr[fd].flags && fdArr[fd].ops.File? && fdArr[fd].inode == inode
        invariant fdArr[fd].fpos <= img.inodes[inode].len
        invariant output == Contents(img, inode)[..fdArr[fd].fpos]
        invariant Readable(img, inode, 0, fdArr[fd].fpos)
        decreases img.inodes[inode].len - fdArr[fd].fpos
      {
        ghost var f := fdArr[fd];
        FileReadAdvances(img, f, 1024);
        var _, cnt := Read(fd, buf, 1024);
        if cnt == 0 {
          return true, output;
        }
        if cnt == -1 {
          return false, output;
        }
        output := output + buf[..cnt];
      }
    }
  }
}
