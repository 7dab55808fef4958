/** The files under a pager, what a crash can leave of them, and what Open makes of that. */
module Disk {
  import opened Wrappers
  import opened Bytes
  import opened Wal
  import opened WalReplay

  const HEADER_PAGE: nat := 0
  const MIRROR_PAGE: nat := 1
  /** Page offsets from here on do not fit an int64, so writing there fails. */
  const MAX_PAGES: nat := 0x8_0000_0000_0000

  /** Durable contents of the main file and of the log. */
  datatype Files = Files(pages: Images, wal: Bytes)

  datatype Write = Write(id: nat, img: Image)

  /** Files together with the writes that no fsync has covered yet. */
  datatype Device = Device(files: Files, pending: seq<Write>, walTail: Bytes)

  // ----- fsync -----

  function Land(pages: Images, ws: seq<Write>): Images {
    if ws == [] then pages else Land(pages, ws[..|ws| - 1])[ws[|ws| - 1].id := ws[|ws| - 1].img]
  }

  /** fsync of the main file. */
  function Synced(dev: Device): Device {
    Device(Files(Land(dev.files.pages, dev.pending), dev.files.wal), [], dev.walTail)
  }

  /** fsync of the log. */
  function WalSynced(dev: Device): Device {
    Device(Files(dev.files.pages, dev.files.wal + dev.walTail), dev.pending, [])
  }

  // ----- crashes -----

  ghost function Unsynced(ws: seq<Write>, id: nat): set<Image> {
    set w | w in ws && w.id == id :: w.img
  }

  /** A page with unsynced writes may keep its old contents, get one of them, or be torn. */
  ghost function Choices(dev: Device, id: nat): set<Image> {
    {Img(dev.files.pages, id)} + if Unsynced(dev.pending, id) == {} then {} else {Torn} + Unsynced(dev.pending, id)
  }

  /** The states a crash can leave; an unsynced log append survives up to any byte. */
  ghost predicate MayCrashTo(dev: Device, f: Files) {
    && (forall id: nat :: Img(f.pages, id) in Choices(dev, id))
    && (exists n: nat :: n <= |dev.walTail| && f.wal == dev.files.wal + dev.walTail[..n])
  }

  /** What a crash can leave: of each page the synced contents, or, if writes to it are unsynced, one
      of them or a torn page; of the log all that is synced and any part of the rest, cut anywhere. */
  lemma CrashIff(dev: Device, f: Files)
    ensures MayCrashTo(dev, f) <==>
      && (forall id: nat ::
            || Img(f.pages, id) == Img(dev.files.pages, id)
            || exists i :: 0 <= i < |dev.pending| && dev.pending[i].id == id && Img(f.pages, id) in {dev.pending[i].img, Torn})
      && dev.files.wal <= f.wal <= dev.files.wal + dev.walTail
  {
    forall id: nat ensures Img(f.pages, id) in Choices(dev, id) <==>
      || Img(f.pages, id) == Img(dev.files.pages, id)
      || exists i :: 0 <= i < |dev.pending| && dev.pending[i].id == id && Img(f.pages, id) in {dev.pending[i].img, Torn}
    {
      ChoicesAre(dev, id, Img(f.pages, id));
    }
    if dev.files.wal <= f.wal <= dev.files.wal + dev.walTail {
      var n := |f.wal| - |dev.files.wal|;
      assert f.wal == dev.files.wal + dev.walTail[..n];
    }
  }

  lemma ChoicesAre(dev: Device, id: nat, img: Image)
    ensures img in Choices(dev, id) <==>
      img == Img(dev.files.pages, id)
      || exists i :: 0 <= i < |dev.pending| && dev.pending[i].id == id && img in {dev.pending[i].img, Torn}
  {
    var u := Unsynced(dev.pending, id);
    if i :| 0 <= i < |dev.pending| && dev.pending[i].id == id && img in {dev.pending[i].img, Torn} {
      assert dev.pending[i].img in u;
    }
    if u != {} {
      var x :| x in u;
      var w :| w in dev.pending && w.id == id && w.img == x;
      var i :| 0 <= i < |dev.pending| && dev.pending[i] == w;
      if img in u {
        var w' :| w' in dev.pending && w'.id == id && w'.img == img;
        var j :| 0 <= j < |dev.pending| && dev.pending[j] == w';
      }
    }
  }

  // ----- Open -----

  /** The state of an open pager that outlives it. */
  datatype View = View(pageCount: nat, chain: seq<nat>, pages: Images)

  function Pointer(body: Bytes): (next: nat)
    requires |body| == BODY_SIZE
    ensures next <= SENTINEL
  {
    Get64(body[0..8])
  }

  function PointerBody(next: nat): (b: Bytes)
    requires next <= SENTINEL
    ensures |b| == BODY_SIZE
  {
    Put64(next) + Zeros(BODY_SIZE - 8)
  }

  lemma PointerRoundTrip(next: nat)
    requires next <= SENTINEL
    ensures Pointer(PointerBody(next)) == next
  {
    Get64Put64(next);
    assert PointerBody(next)[0..8] == Put64(next);
  }

  lemma ZeroPointer()
    ensures Pointer(Zeros(BODY_SIZE)) == 0
  {
    var z := Zeros(BODY_SIZE)[0..8];
    assert FromBigEndian(z) == 0 by { ZeroIsZero(z); }
  }

  ghost function Below(n: nat): (s: set<nat>)
    ensures forall i: nat :: i in s <==> i < n
  {
    if n == 0 then {} else Below(n - 1) + {n - 1}
  }

  /** Open's walk of the free list: the pages on it, or None for a corrupt list. */
  function Walk(pages: Images, pageCount: nat, curr: nat, seen: set<nat>): (r: Option<seq<nat>>)
    decreases Below(pageCount) - seen
  {
    if curr == SENTINEL then Some([])
    else if curr == 0 || curr >= pageCount || curr in seen then None
    else
      var img := Img(pages, curr);
      if !img.PageImg? || |img.body| != BODY_SIZE then None
      else
        match Walk(pages, pageCount, Pointer(img.body), seen + {curr})
        case None => None
        case Some(rest) => Some([curr] + rest)
  }

  /** The primary header if its checksum holds, else the mirror. */
  function ChosenHeader(f: Files): Option<Header> {
    if Img(f.pages, HEADER_PAGE).HeadImg? then Some(Img(f.pages, HEADER_PAGE).h)
    else if Img(f.pages, MIRROR_PAGE).HeadImg? then Some(Img(f.pages, MIRROR_PAGE).h)
    else None
  }

  /** The readable data pages: neither headers nor free. */
  function DataPages(pages: Images, pageCount: nat, chain: seq<nat>): Images {
    map id | FIRST_DATA_PAGE <= id < pageCount && id !in chain :: Img(pages, id)
  }

  /** What Open recovers from the files, or None when it fails. */
  function Recover(crc: Crc, f: Files): Option<View> {
    match ChosenHeader(f)
    case None => None
    case Some(h) =>
      match Walk(f.pages, h.pageCount, h.head, {})
      case None => None
      case Some(chain) =>
        if |chain| != h.freeCount then None
        else
          match Parse(crc, f.wal)
          case WalCorrupt => None
          case Records(rs) => Some(View(h.pageCount, chain, DataPages(Replay(rs, f.pages), h.pageCount, chain)))
  }
}
