/**
 The reference for file operations: a file is a record of its kind and size and one
 byte at every position, and calls act on one file at a time.  `Cell` is one byte of
 a file with the record; over calls each cell develops by itself.
 */
module FileModel {
  import opened Bytes
  import opened Files

  const UINT_LIMIT: nat := 0x1_0000_0000

  /** "10.2.0" with its terminating zero byte. */
  const RELEASE: seq<Byte> := [49, 48, 46, 50, 46, 48, 0]

  /** A call of eread, ewrite, etrunc or ealloc. */
  datatype Request =
    | ToRead(f: int, off: nat, n: nat)
    | ToWrite(f: int, off: nat, data: seq<Byte>)
    | ToTruncate(f: int)
    | ToCreate(f: int, readOnly: bool, directory: bool)

  datatype Meta = Meta(device: Device, readOnly: bool, directory: bool, size: nat)
  datatype Cell = Cell(meta: Meta, byte: Byte)

  /** Writes that change nothing: swallowed by the null device, too long for 32 bits, or to a read-only file. */
  predicate Idle(m: Meta, off: nat, data: seq<Byte>) {
    m.device == NullDevice || off + |data| >= UINT_LIMIT || m.readOnly
  }

  function MetaAfter(m: Meta, q: Request): Meta {
    match q
    case ToRead(_, _, _) => m
    case ToWrite(_, off, data) =>
      if Idle(m, off, data) || |data| == 0 || off + |data| <= m.size then m else m.(size := off + |data|)
    case ToTruncate(_) => m.(size := 0)
    case ToCreate(_, readOnly, directory) => Meta(m.device, readOnly, directory, 0)
  }

  /** Byte p of the file a call is for. */
  function CellAfter(x: Cell, p: nat, q: Request): Cell {
    Cell(MetaAfter(x.meta, q),
         match q
         case ToRead(_, _, _) => x.byte
         case ToWrite(_, off, data) => if !Idle(x.meta, off, data) && off <= p < off + |data| then data[p - off]
                                       else x.byte
         case ToTruncate(_) => 0
         case ToCreate(_, _, _) => 0)
  }

  /** Byte p of file f after the calls. */
  function Replay(qs: seq<Request>, f: int, p: nat, x: Cell): Cell {
    if qs == [] then x
    else
      var y := Replay(qs[..|qs| - 1], f, p, x);
      var q := qs[|qs| - 1];
      if q.f == f then CellAfter(y, p, q) else y
  }

  lemma NoReplay(f: int, p: nat, x: Cell)
    ensures Replay([], f, p, x) == x
  {
  }

  lemma ReplayLast(qs: seq<Request>, q: Request, f: int, p: nat, x: Cell)
    ensures Replay(qs + [q], f, p, x) == var y := Replay(qs, f, p, x); if q.f == f then CellAfter(y, p, q) else y
  {
    assert (qs + [q])[..|qs|] == qs;
  }

  function ReadLength(m: Meta, off: nat, n: nat): nat {
    if off > m.size || off + n >= UINT_LIMIT || m.directory then 0 else if off + n > m.size then m.size - off else n
  }

  // ---------- the store ----------

  ghost function CellOf(s: Store, f: int, p: nat): Cell
    requires Exists(s, f)
  {
    var d := s.dirents[f];
    Cell(Meta(d.device, d.readOnly, d.directory, d.size), Raw(s, f, p))
  }

  /** One call does to every byte of every file what it does in the reference. */
  ghost predicate Served(s: Store, s': Store, q: Request) {
    && |s'.dirents| == |s.dirents|
    && forall f, p: nat :: Exists(s, f) ==>
         CellOf(s', f, p) == if f == q.f then CellAfter(CellOf(s, f, p), p, q) else CellOf(s, f, p)
  }

  /** A run of calls does. */
  ghost predicate Replayed(s: Store, s': Store, qs: seq<Request>) {
    && |s'.dirents| == |s.dirents|
    && forall f, p: nat :: Exists(s, f) ==> CellOf(s', f, p) == Replay(qs, f, p, CellOf(s, f, p))
  }

  lemma ReplayedMore(s: Store, s1: Store, s2: Store, qs: seq<Request>, q: Request)
    requires Replayed(s, s1, qs) && Served(s1, s2, q)
    ensures Replayed(s, s2, qs + [q])
  {
    hide Replay, CellAfter, CellOf;
    forall f, p: nat | Exists(s, f) ensures CellOf(s2, f, p) == Replay(qs + [q], f, p, CellOf(s, f, p)) {
      ReplayLast(qs, q, f, p, CellOf(s, f, p));
    }
  }

  /** What eread returns: the device's answer, or the bytes from off, cut at the end of the file. */
  ghost predicate Answer(m: Meta, q: Request, data: seq<Byte>, bytes: seq<Byte>) {
    q.ToRead? ==>
      data == if m.device == ZeroDevice then seq<Byte>(q.n, i => 0)
              else if m.device == OsRelease then RELEASE else bytes
  }

  /** The bytes from off at that point of the reference. */
  ghost function BytesThen(s: Store, qs: seq<Request>, f: int, off: nat, n: nat): seq<Byte>
    requires Exists(s, f)
  {
    var m := Replay(qs, f, 0, CellOf(s, f, 0)).meta;
    seq<Byte>(ReadLength(m, off, n), (j: nat) => Replay(qs, f, off + j, CellOf(s, f, off + j)).byte)
  }

  ghost predicate Answered(s: Store, qs: seq<Request>, q: Request, data: seq<Byte>) {
    q.ToRead? && Exists(s, q.f) ==>
      Answer(Replay(qs, q.f, 0, CellOf(s, q.f, 0)).meta, q, data, BytesThen(s, qs, q.f, q.off, q.n))
  }

  lemma AnsweredLater(s: Store, s1: Store, qs: seq<Request>, q: Request, data: seq<Byte>)
    requires Replayed(s, s1, qs) && Answered(s1, [], q, data)
    ensures Answered(s, qs, q, data)
  {
    hide CellOf, Replay;
    if q.ToRead? && Exists(s, q.f) {
      forall p: nat ensures Replay([], q.f, p, CellOf(s1, q.f, p)) == Replay(qs, q.f, p, CellOf(s, q.f, p)) {
        NoReplay(q.f, p, CellOf(s1, q.f, p));
      }
      var a, b := BytesThen(s1, [], q.f, q.off, q.n), BytesThen(s, qs, q.f, q.off, q.n);
      assert |a| == |b| && forall j :: 0 <= j < |a| ==> a[j] == b[j];
    }
  }

  // ---------- whole files ----------

  /** A file as a record and an array of bytes. */
  datatype Image = Image(device: Device, readOnly: bool, directory: bool, bytes: seq<Byte>)

  function MetaOf(x: Image): Meta { Meta(x.device, x.readOnly, x.directory, |x.bytes|) }

  function CellIn(x: Image, p: nat): Cell { Cell(MetaOf(x), if p < |x.bytes| then x.bytes[p] else 0) }

  function ImageAfter(x: Image, q: Request): Image {
    match q
    case ToRead(_, _, _) => x
    case ToWrite(_, off, data) => if Idle(MetaOf(x), off, data) then x else x.(bytes := Splice(x.bytes, off, data))
    case ToTruncate(_) => x.(bytes := [])
    case ToCreate(_, readOnly, directory) => Image(x.device, readOnly, directory, [])
  }

  function ReplayImage(qs: seq<Request>, f: int, x: Image): Image {
    if qs == [] then x
    else
      var y := ReplayImage(qs[..|qs| - 1], f, x);
      if qs[|qs| - 1].f == f then ImageAfter(y, qs[|qs| - 1]) else y
  }

  /** On files that end in zeros the calls splice, empty and create arrays of bytes. */
  lemma {:induction false} ImageReplay(qs: seq<Request>, f: int, x: Image, p: nat)
    ensures Replay(qs, f, p, CellIn(x, p)) == CellIn(ReplayImage(qs, f, x), p)
  {
    if qs != [] {
      var n := |qs| - 1;
      ImageReplay(qs[..n], f, x, p);
      var y := ReplayImage(qs[..n], f, x);
      if qs[n].f == f && qs[n].ToWrite? && p < |Splice(y.bytes, qs[n].off, qs[n].data)| {
        SpliceByte(y.bytes, qs[n].off, qs[n].data, p);
      }
    }
  }

  ghost function ImageOf(s: Store, f: int): Image
    requires Exists(s, f)
  {
    var d := s.dirents[f];
    Image(d.device, d.readOnly, d.directory, Content(s, f))
  }

  /** The store refines byte arrays: over every run, for every file with zeros past its end. */
  lemma RunRefines(s: Store, s': Store, qs: seq<Request>, f: int)
    requires Replayed(s, s', qs) && TailZero(s, f)
    ensures TailZero(s', f) && ImageOf(s', f) == ReplayImage(qs, f, ImageOf(s, f))
  {
    hide Raw, Replay, ReplayImage;
    var x := ImageOf(s, f);
    var y := ReplayImage(qs, f, x);
    forall p: nat ensures CellOf(s', f, p) == CellIn(y, p) {
      ImageReplay(qs, f, x, p);
      assert CellOf(s, f, p) == CellIn(x, p);
    }
    assert CellOf(s', f, 0).meta == MetaOf(y);
    forall p: nat | p < |y.bytes| ensures Content(s', f)[p] == y.bytes[p] {
      assert CellOf(s', f, p) == CellIn(y, p);
    }
    forall p: nat | p >= |y.bytes| ensures Raw(s', f, p) == 0 {
      assert CellOf(s', f, p) == CellIn(y, p);
    }
  }
}
