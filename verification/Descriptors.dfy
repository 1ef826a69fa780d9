/** The eight file descriptors of a process: open, read and close, and their file positions. */
module Descriptors {
  import opened Wrappers
  import opened FileSystem
  import LineDiscipline

  const MAX_FILES := 8

  /** Which table of operations a descriptor points to. */
  datatype Kind = Stdin | Stdout | Rtc | Directory | File

  datatype Desc = Desc(kind: Kind, inode: int, pos: nat)

  datatype Fds = Fds(available: seq<bool>, fd: seq<Desc>) {
    predicate Shape() {
      |available| == MAX_FILES && |fd| == MAX_FILES
    }

    predicate InUse(i: nat)
      requires Shape()
    {
      i < MAX_FILES && !available[i]
    }
  }

  // ---------- what the calls do ----------

  datatype Target = Device | Entries | Contents(inode: nat) | Nothing

  /** What a name opens: any name that begins with "rtc" or with a dot is special. */
  function Resolve(fs: Image, name: seq<char>): Target
    requires fs.Valid()
  {
    if "rtc" <= name then Device
    else if "." <= name then (if Lookup(fs, ".").Some? then Entries else Nothing)
    else if |name| > FILENAME_LEN then Nothing
    else match Lookup(fs, name)
      case None => Nothing
      case Some(i) => Contents(fs.dentries[i].inode)
  }

  function DescOf(target: Target): Desc
    requires target != Nothing
  {
    match target
    case Device => Desc(Rtc, -1, 0)
    case Entries => Desc(Directory, -1, 0)
    case Contents(inode) => Desc(File, inode, 0)
  }

  datatype Request = Open(name: seq<char>) | Read(fd: nat, n: Size) | Close(fd: nat)

  /** `Typed` is a line from the keyboard, which the descriptor table knows nothing about. */
  datatype Answer = Code(code: int) | Data(bytes: seq<char>) | Typed

  predicate Readable(fs: Image, d: Desc) {
    && fs.Valid()
    && (d.kind == File ==> 0 <= d.inode < |fs.inodes| && d.pos <= fs.inodes[d.inode].length)
    && (d.kind == Directory ==> d.pos <= fs.dirCount)
  }

  /** Holds from the first request on: the descriptors in use are sound, and 0 and 1 are the console. */
  ghost predicate Valid(fs: Image, t: Fds) {
    && fs.Valid()
    && t.Shape()
    && t.InUse(0) && t.fd[0].kind == Stdin
    && t.InUse(1) && t.fd[1].kind == Stdout
    && forall i | 2 <= i < MAX_FILES :: t.InUse(i) ==> Readable(fs, t.fd[i]) && t.fd[i].kind !in {Stdin, Stdout}
  }

  /** The bytes that a read of `n` bytes finds at a descriptor of a file or the directory. */
  function BytesAt(fs: Image, d: Desc, n: Size): (bytes: seq<char>)
    requires Readable(fs, d) && d.kind in {File, Directory}
  {
    if d.kind == File then
      var flat := fs.Flat(d.inode);
      flat[d.pos..d.pos + Min(n, |flat| - d.pos)]
    else if d.pos < fs.dirCount then EntryBytes(fs.dentries[d.pos], n)
    else []
  }

  function Advanced(fs: Image, d: Desc, n: Size): (r: Desc)
    requires Readable(fs, d) && d.kind in {File, Directory}
    ensures Readable(fs, r) && r.kind == d.kind && r.inode == d.inode
  {
    if d.kind == File then d.(pos := d.pos + |BytesAt(fs, d, n)|)
    else if d.pos < fs.dirCount then d.(pos := d.pos + 1)
    else d
  }

  /** One request: the descriptors after it and the answer. */
  function Served(fs: Image, t: Fds, q: Request): (r: (Fds, Answer))
    requires Valid(fs, t)
  {
    match q
    case Open(name) => (
      match FirstTrue(t.available)
      case None => (t, Code(-1))
      case Some(i) =>
        if Resolve(fs, name) == Nothing then (t, Code(-1))
        else (Fds(t.available[i := false], t.fd[i := DescOf(Resolve(fs, name))]), Code(i)))
    case Read(fd, n) => (
      if !t.InUse(fd) then (t, Code(-1))
      else match t.fd[fd].kind
        case Stdin => (t, Typed)
        case Stdout => (t, Code(-1))
        case Rtc => (t, Code(0))
        case _ => (t.(fd := t.fd[fd := Advanced(fs, t.fd[fd], n)]), Data(BytesAt(fs, t.fd[fd], n))))
    case Close(fd) =>
      if fd < 2 || !t.InUse(fd) then (t, Code(-1))
      else (t.(available := t.available[fd := true]), Code(0))
  }

  /** How much of the caller's buffer a read fills. */
  function Delivers(fs: Image, t: Fds, fd: nat, n: Size): nat
    requires Valid(fs, t)
  {
    match Served(fs, t, Read(fd, n)).1
    case Data(bytes) => |bytes|
    case Typed => LineDiscipline.Room(Signed(n))
    case Code(_) => 0
  }

  lemma ServedIsValid(fs: Image, t: Fds, q: Request)
    requires Valid(fs, t)
    ensures Valid(fs, Served(fs, t, q).0)
  {
  }

  /** In a running process the console can be read, and as descriptor 0 only. */
  lemma ConsoleReads(fs: Image, t: Fds, n: Size)
    requires Valid(fs, t)
    ensures Served(fs, t, Read(0, n)) == (t, Typed) && Served(fs, t, Read(1, n)) == (t, Code(-1))
    ensures forall fd: nat | fd != 0 :: Served(fs, t, Read(fd, n)).1 != Typed
    ensures Delivers(fs, t, 0, n) == LineDiscipline.Room(Signed(n)) && Delivers(fs, t, 1, n) == 0
  {
  }

  /** A successful open takes the lowest free descriptor; a failing one leaves the table as it was. */
  lemma OpenTakesLowest(fs: Image, t: Fds, name: seq<char>)
    requires Valid(fs, t)
    ensures var (after, answer) := Served(fs, t, Open(name));
            && answer.Code?
            && (answer.code == -1 <==> (Resolve(fs, name) == Nothing || forall i: nat | i < MAX_FILES :: t.InUse(i)))
            && (answer.code == -1 ==> after == t)
            && (answer.code != -1 ==>
                  && 2 <= answer.code < MAX_FILES
                  && !t.InUse(answer.code)
                  && after.InUse(answer.code)
                  && (forall i: nat | i < answer.code :: t.InUse(i))
                  && (forall i: nat | i < MAX_FILES && i != answer.code ::
                      after.InUse(i) == t.InUse(i) && after.fd[i] == t.fd[i]))
  {
    match FirstTrue(t.available)
    case None =>
    case Some(i) =>
      assert !t.InUse(i);
  }

  /**
   Opening the name of a directory entry gives a descriptor at the beginning of that entry's file exactly if there is
   a free descriptor, the name begins with neither "rtc" nor a dot, and no earlier entry of that name leads elsewhere.
   */
  lemma ListedNameOpensIff(fs: Image, t: Fds, k: nat)
    requires Valid(fs, t) && k < fs.dirCount
    ensures var name := NameOf(fs.dentries[k]);
            var (after, answer) := Served(fs, t, Open(name));
            && answer.Code? && Lookup(fs, name).Some?
            && (0 <= answer.code < MAX_FILES && after.fd[answer.code] == Desc(File, fs.dentries[k].inode, 0)
                <==> (exists i: nat | i < MAX_FILES :: !t.InUse(i)) && !("rtc" <= name) && !("." <= name)
                     && fs.dentries[Lookup(fs, name).value].inode == fs.dentries[k].inode)
  {
    var name := NameOf(fs.dentries[k]);
    OpenTakesLowest(fs, t, name);
    assert forall i: nat | i < MAX_FILES :: !t.InUse(i) == t.available[i];
  }

  /** A name that begins with "rtc" opens the clock, and one with a dot the directory, if it has an entry ".". */
  lemma SpecialNameOpens(fs: Image, t: Fds, name: seq<char>)
    requires Valid(fs, t) && ("rtc" <= name || "." <= name)
    ensures var (after, answer) := Served(fs, t, Open(name));
            && answer.Code?
            && (answer.code != -1 <==>
                  && (exists i: nat | i < MAX_FILES :: !t.InUse(i))
                  && ("rtc" <= name || exists k | 0 <= k < fs.dirCount :: NameOf(fs.dentries[k]) == "."))
            && (answer.code != -1 ==>
                  0 <= answer.code < MAX_FILES
                  && after.fd[answer.code] == Desc(if "rtc" <= name then Rtc else Directory, -1, 0))
  {
    OpenTakesLowest(fs, t, name);
    assert forall i: nat | i < MAX_FILES :: !t.InUse(i) == t.available[i];
  }

  /** Closing frees exactly the descriptor that is closed; the console and a free one are refused. */
  lemma CloseFrees(fs: Image, t: Fds, fd: nat)
    requires Valid(fs, t)
    ensures var (after, answer) := Served(fs, t, Close(fd));
            if fd < 2 || !t.InUse(fd) then after == t && answer == Code(-1)
            else
              && answer == Code(0) && !after.InUse(fd) && after.fd == t.fd
              && forall i: nat | i < MAX_FILES && i != fd :: after.InUse(i) == t.InUse(i)
    ensures !t.InUse(fd) ==> forall n :: Served(fs, t, Read(fd, n)) == (t, Code(-1))
  {
  }

  // ---------- runs ----------

  function Serve(fs: Image, t: Fds, qs: seq<Request>): (r: Fds)
    requires Valid(fs, t)
    ensures Valid(fs, r)
  {
    if qs == [] then t
    else
      var last := |qs| - 1;
      ServedIsValid(fs, Serve(fs, t, qs[..last]), qs[last]);
      Served(fs, Serve(fs, t, qs[..last]), qs[last]).0
  }

  /**
   What the user of one descriptor saw since it was opened: the name, the sizes asked for, and the bytes of
   each read.
   */
  datatype Stream = Stream(name: seq<char>, sizes: seq<Size>, chunks: seq<seq<char>>)

  function StreamAfter(fs: Image, t: Fds, q: Request, i: nat, was: Option<Stream>): Option<Stream>
    requires Valid(fs, t)
  {
    var answer := Served(fs, t, q).1;
    match q
    case Open(name) => if answer == Code(i) then Some(Stream(name, [], [])) else was
    case Read(fd, n) =>
      if fd == i && answer.Data? && was.Some?
      then Some(Stream(was.value.name, was.value.sizes + [n], was.value.chunks + [answer.bytes]))
      else was
    case Close(fd) => if fd == i && answer == Code(0) then None else was
  }

  function StreamOf(fs: Image, t: Fds, qs: seq<Request>, i: nat): Option<Stream>
    requires Valid(fs, t)
  {
    if qs == [] then None
    else
      var last := |qs| - 1;
      StreamAfter(fs, Serve(fs, t, qs[..last]), qs[last], i, StreamOf(fs, t, qs[..last], i))
  }

  function Total(sizes: seq<Size>): nat {
    if sizes == [] then 0 else Total(sizes[..|sizes| - 1]) + sizes[|sizes| - 1]
  }

  function Concat(chunks: seq<seq<char>>): seq<char> {
    if chunks == [] then [] else Concat(chunks[..|chunks| - 1]) + chunks[|chunks| - 1]
  }

  /** A descriptor and its stream belong together. */
  ghost predicate Streams(fs: Image, d: Desc, s: Stream) {
    && Readable(fs, d)
    && |s.sizes| == |s.chunks|
    && Resolve(fs, s.name) != Nothing
    && d == DescOf(Resolve(fs, s.name)).(pos := d.pos)
    && (d.kind == File ==> FileStream(fs, d, s))
    && (d.kind == Directory ==> DirectoryStream(fs, d, s))
  }

  /** All bytes delivered are the beginning of the flat file, as long as was asked for. */
  ghost predicate FileStream(fs: Image, d: Desc, s: Stream)
    requires Readable(fs, d) && d.kind == File
  {
    && d.pos == Min(Total(s.sizes), |fs.Flat(d.inode)|)
    && Concat(s.chunks) == fs.Flat(d.inode)[..d.pos]
  }

  /** Read number `k` delivered entry number `k`, and nothing after the last entry. */
  ghost predicate DirectoryStream(fs: Image, d: Desc, s: Stream)
    requires Readable(fs, d) && d.kind == Directory && |s.sizes| == |s.chunks|
  {
    && d.pos == Min(|s.sizes|, fs.dirCount)
    && forall k | 0 <= k < |s.chunks| ::
         s.chunks[k] == if k < fs.dirCount then EntryBytes(fs.dentries[k], s.sizes[k]) else []
  }

  lemma FileRead(fs: Image, d: Desc, s: Stream, n: Size)
    requires Readable(fs, d) && d.kind == File && FileStream(fs, d, s)
    ensures FileStream(fs, Advanced(fs, d, n), Stream(s.name, s.sizes + [n], s.chunks + [BytesAt(fs, d, n)]))
  {
    var bytes, flat := BytesAt(fs, d, n), fs.Flat(d.inode);
    assert (s.sizes + [n])[..|s.sizes|] == s.sizes && (s.chunks + [bytes])[..|s.chunks|] == s.chunks;
    assert flat[..d.pos] + bytes == flat[..d.pos + |bytes|];
  }

  lemma ReadStreams(fs: Image, d: Desc, s: Stream, n: Size)
    requires Streams(fs, d, s) && d.kind in {File, Directory}
    ensures Streams(fs, Advanced(fs, d, n), Stream(s.name, s.sizes + [n], s.chunks + [BytesAt(fs, d, n)]))
  {
    if d.kind == File {
      FileRead(fs, d, s, n);
    } else {
      DirectoryRead(fs, d, s, n);
    }
  }

  lemma DirectoryRead(fs: Image, d: Desc, s: Stream, n: Size)
    requires Readable(fs, d) && d.kind == Directory && |s.sizes| == |s.chunks| && DirectoryStream(fs, d, s)
    ensures DirectoryStream(fs, Advanced(fs, d, n), Stream(s.name, s.sizes + [n], s.chunks + [BytesAt(fs, d, n)]))
  {
  }

  /**
   Whatever requests are mixed: 0 and 1 are never given out again, every descriptor that was opened
   and not closed has its own stream, and that stream is a function of its name and sizes alone.
   */
  lemma {:induction false} StreamsAreIndependent(fs: Image, t: Fds, qs: seq<Request>, i: nat)
    requires Valid(fs, t) && 2 <= i < MAX_FILES && !t.InUse(i)
    ensures Serve(fs, t, qs).InUse(i) == StreamOf(fs, t, qs, i).Some?
    ensures Serve(fs, t, qs).InUse(i) ==> Streams(fs, Serve(fs, t, qs).fd[i], StreamOf(fs, t, qs, i).value)
  {
    if qs == [] {
    } else {
      var last := |qs| - 1;
      StreamsAreIndependent(fs, t, qs[..last], i);
      StreamStep(fs, Serve(fs, t, qs[..last]), qs[last], i, StreamOf(fs, t, qs[..last], i));
    }
  }

  lemma StreamStep(fs: Image, t: Fds, q: Request, i: nat, was: Option<Stream>)
    requires Valid(fs, t) && 2 <= i < MAX_FILES && t.InUse(i) == was.Some?
    requires t.InUse(i) ==> Streams(fs, t.fd[i], was.value)
    ensures var after, now := Served(fs, t, q).0, StreamAfter(fs, t, q, i, was);
            after.Shape() && after.InUse(i) == now.Some? && (after.InUse(i) ==> Streams(fs, after.fd[i], now.value))
  {
    match q
    case Open(name) =>
    case Read(fd, n) => StreamRead(fs, t, fd, n, i, was);
    case Close(fd) =>
  }

  lemma StreamRead(fs: Image, t: Fds, fd: nat, n: Size, i: nat, was: Option<Stream>)
    requires Valid(fs, t) && 2 <= i < MAX_FILES && t.InUse(i) == was.Some?
    requires t.InUse(i) ==> Streams(fs, t.fd[i], was.value)
    ensures var after, now := Served(fs, t, Read(fd, n)).0, StreamAfter(fs, t, Read(fd, n), i, was);
            after.Shape() && after.InUse(i) == now.Some? && (after.InUse(i) ==> Streams(fs, after.fd[i], now.value))
  {
    if fd == i && t.InUse(i) && t.fd[i].kind in {File, Directory} {
      ReadStreams(fs, t.fd[i], was.value, n);
    }
  }

  /** A reader that asks often enough has the whole file. */
  lemma ReadToTheEnd(fs: Image, t: Fds, qs: seq<Request>, i: nat)
    requires Valid(fs, t) && 2 <= i < MAX_FILES && !t.InUse(i)
    requires StreamOf(fs, t, qs, i).Some? && Resolve(fs, StreamOf(fs, t, qs, i).value.name).Contents?
    ensures var s := StreamOf(fs, t, qs, i).value;
            var flat := fs.Flat(Resolve(fs, s.name).inode);
            Concat(s.chunks) == flat <==> Total(s.sizes) >= |flat|
  {
    StreamsAreIndependent(fs, t, qs, i);
  }

  // ---------- the code ----------

  /** The comparisons of a name with a special one look at the length of the special one only. */
  method Begins(name: seq<char>, special: seq<char>) returns (yes: bool)
    requires '\0' !in name && '\0' !in special
    ensures yes <==> special <= name
  {
    var difference := Strncmp(name + ['\0'], special + ['\0'], |special|);
    Prefixed(name, special);
    return difference == 0;
  }

  /** The part of `open` that finds out what a name stands for. */
  method LookUp(fs: Image, name: seq<char>) returns (target: Target)
    requires fs.Valid() && '\0' !in name
    ensures target == Resolve(fs, name)
  {
    var isRtc := Begins(name, "rtc");
    if isRtc {
      return Device;
    }
    var isDir := Begins(name, ".");
    var found := ReadDentryByName(fs, if isDir then "." else name);
    if !found.Found? {
      return Nothing;
    }
    return if isDir then Entries else Contents(found.dentry.inode);
  }

  class Process {
    const available: array<bool>
    const fd: array<Desc>
    const keyboard: LineDiscipline.Keyboard

    ghost function Value(): Fds
      reads available, fd
    {
      Fds(available[..], fd[..])
    }

    ghost predicate Allocated() {
      available.Length == MAX_FILES && fd.Length == MAX_FILES && available as object != fd as object
    }

    /** The descriptor part of setup_pcb; what the other entries hold is left over from earlier. */
    constructor (fs: Image, terminal: LineDiscipline.Keyboard)
      requires fs.Valid()
      ensures keyboard == terminal
      ensures Allocated() && fresh(available) && fresh(fd)
      ensures Valid(fs, Value()) && forall i | 2 <= i < MAX_FILES :: !Value().InUse(i)
    {
      available := new bool[MAX_FILES];
      fd := new Desc[MAX_FILES];
      keyboard := terminal;
      new;
      fd[0] := Desc(Stdin, -1, 0);
      fd[1] := Desc(Stdout, -1, 0);
      var i := 0;
      while i < 8
        invariant 0 <= i <= 8
        invariant forall k | 0 <= k < i :: available[k]
        invariant fd[0] == Desc(Stdin, -1, 0) && fd[1] == Desc(Stdout, -1, 0)
      {
        available[i] := true;
        i := i + 1;
      }
      available[0] := false;
      available[1] := false;
    }

    method GetAvailFd() returns (r: int)
      requires Allocated()
      modifies available
      ensures match FirstTrue(old(available[..]))
        case None => r == -1 && available[..] == old(available[..])
        case Some(i) => r == i && available[..] == old(available[..])[i := false]
    {
      var i := 0;
      while i < 8
        invariant 0 <= i <= 8 && available[..] == old(available[..])
        invariant forall k | 0 <= k < i :: !available[k]
      {
        if available[i] {
          FirstTrueIs(available[..], i);
          available[i] := false;
          return i;
        }
        i := i + 1;
      }
      return -1;
    }

    method MakeAvailableFd(i: int)
      requires Allocated()
      modifies available
      ensures available[..] == if 0 <= i < MAX_FILES then old(available[..])[i := true] else old(available[..])
    {
      if i < 0 || i > 7 {
        return;
      }
      available[i] := true;
    }

    method OpenFile(fs: Image, name: seq<char>) returns (r: int)
      requires Allocated() && Valid(fs, Value()) && '\0' !in name
      modifies available, fd
      ensures (Value(), Code(r)) == Served(fs, old(Value()), Open(name))
    {
      ghost var before := Value();
      var i := GetAvailFd();
      if i < 0 {
        MakeAvailableFd(i);
        return -1;
      }
      var target := LookUp(fs, name);
      if target == Nothing {
        MakeAvailableFd(i);
        assert available[..] == before.available;
        return -1;
      }
      fd[i] := DescOf(target);
      return i;
    }

    method CloseFile(i: nat, ghost fs: Image) returns (r: int)
      requires Allocated() && Valid(fs, Value())
      modifies available
      ensures (Value(), Code(r)) == Served(fs, old(Value()), Close(i))
    {
      if i < 2 || i > 7 || available[i] {
        return -1;
      }
      available[i] := true;
      return if fd[i].kind == Stdin || fd[i].kind == Stdout then -1 else 0;
    }

    /** `file_read`. */
    method ReadContents(fs: Image, i: nat, buf: array<char>, at: nat, n: Size) returns (r: nat)
      requires Allocated() && i < MAX_FILES && Readable(fs, fd[i]) && fd[i].kind == File
      requires at + |BytesAt(fs, fd[i], n)| <= buf.Length
      modifies fd, buf
      ensures r == |BytesAt(fs, old(fd[i]), n)| && fd[..] == old(fd[..])[i := Advanced(fs, old(fd[i]), n)]
      ensures r <= n && buf[..] == Spliced(old(buf[..]), at, BytesAt(fs, old(fd[i]), n))
    {
      r := ReadData(fs, fd[i].inode, fd[i].pos, buf, at, n);
      fd[i] := fd[i].(pos := fd[i].pos + r);
    }

    /** `dir_read`. */
    method ReadEntry(fs: Image, i: nat, buf: array<char>, at: nat, n: Size) returns (r: nat)
      requires Allocated() && i < MAX_FILES && Readable(fs, fd[i]) && fd[i].kind == Directory
      requires !Overruns(fs, fd[i].pos, n) && at + |BytesAt(fs, fd[i], n)| <= buf.Length
      modifies fd, buf
      ensures r == |BytesAt(fs, old(fd[i]), n)| && fd[..] == old(fd[..])[i := Advanced(fs, old(fd[i]), n)]
      ensures r <= n && buf[..] == Spliced(old(buf[..]), at, BytesAt(fs, old(fd[i]), n))
    {
      var next, count := DirRead(fs, fd[i].pos, buf, at, n);
      fd[i] := fd[i].(pos := next);
      r := count;
    }

    /** Descriptor 0 gives the line from the keyboard, for which its reader waits. */
    method ReadFile(fs: Image, i: nat, buf: array<char>, at: nat, n: Size) returns (r: int)
      requires Allocated() && Valid(fs, Value()) && at + Delivers(fs, Value(), i, n) <= buf.Length
      requires Value().InUse(i) && fd[i].kind == Directory ==> !Overruns(fs, fd[i].pos, n)
      requires keyboard.Valid() && buf != keyboard.buffer && (i == 0 && n != 0 ==> keyboard.Value().Ready())
      modifies fd, buf, keyboard
      ensures Value() == Served(fs, old(Value()), Read(i, n)).0
      ensures var answer := Served(fs, old(Value()), Read(i, n)).1;
              answer.Code? ==> r == answer.code && buf[..] == old(buf[..]) && keyboard.Value() == old(keyboard.Value())
      ensures var answer := Served(fs, old(Value()), Read(i, n)).1;
              answer.Data? ==> r == |answer.bytes| <= n && buf[..] == Spliced(old(buf[..]), at, answer.bytes)
                               && keyboard.Value() == old(keyboard.Value())
      ensures Served(fs, old(Value()), Read(i, n)).1.Typed? ==>
                var line, end := old(keyboard.Value()), at + LineDiscipline.Room(Signed(n));
                && r == |LineDiscipline.Handed(line, Signed(n))|
                && buf[at..end] == LineDiscipline.Delivered(line, Signed(n))
                && buf[..at] == old(buf[..at]) && buf[end..] == old(buf[end..])
                && keyboard.Value() == LineDiscipline.Taken(line, Signed(n))
    {
      if i > 7 || available[i] {
        return -1;
      }
      match fd[i].kind
      case Stdin =>
        r := keyboard.Read(buf, at, Signed(n));
      case Stdout =>
        r := -1;
      case Rtc =>
        r := 0;
      case File =>
        r := ReadContents(fs, i, buf, at, n);
      case Directory =>
        r := ReadEntry(fs, i, buf, at, n);
    }
  }
}
