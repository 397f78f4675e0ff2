/** The mounted file system seen from outside: a map from names to byte sequences. */
module KtfsSystem {
  import opened Machine
  import opened Results
  import opened KtfsImage
  import opened KtfsTree
  import opened KtfsBitmaps
  import opened KtfsGrowth
  import opened KtfsLimits
  import opened KtfsSteps
  import opened KtfsVolume
  import opened KtfsEntries
  import opened KtfsFiles
  import opened KtfsFile
  import opened KtfsFileRuns
  import opened KtfsDirectory

  type FileMap = map<seq<Byte>, seq<Byte>>

  type WantsMap = map<seq<Byte>, Wants>

  lemma NamedInode(img: Image, live: set<nat>, root: nat, x: seq<Byte>)
    requires DirOk(img, live, root) && x in Names(Entries(img, root))
    ensures var ino := Names(Entries(img, root))[x];
      ino in live && ino != root && ino < |img.inodes| && img.inodes[ino].size <= MAX_FILE_SIZE
  {
    EntriesLength(img, root);
    NamesAt(Entries(img, root), x, Names(Entries(img, root))[x]);
  }

  /** Two names never share an inode. */
  lemma NamesDiffer(img: Image, live: set<nat>, root: nat, x: seq<Byte>, y: seq<Byte>)
    requires DirOk(img, live, root) && x in Names(Entries(img, root)) && y in Names(Entries(img, root)) && x != y
    ensures Names(Entries(img, root))[x] != Names(Entries(img, root))[y]
  {
    var ents := Entries(img, root);
    NamesAt(ents, x, Names(ents)[x]);
    NamesAt(ents, y, Names(ents)[y]);
  }

  ghost function FileAt(img: Image, live: set<nat>, root: nat, x: seq<Byte>): seq<Byte>
    requires DirOk(img, live, root) && x in Names(Entries(img, root))
  {
    NamedInode(img, live, root, x);
    Contents(img, Names(Entries(img, root))[x])
  }

  ghost function Files(img: Image, live: set<nat>, root: nat): FileMap
    requires DirOk(img, live, root)
  {
    map x | x in Names(Entries(img, root)) :: FileAt(img, live, root, x)
  }

  ghost function WantsAtName(img: Image, live: set<nat>, root: nat, x: seq<Byte>): Wants
    requires DirOk(img, live, root) && x in Names(Entries(img, root))
  {
    NamedInode(img, live, root, x);
    WantsOf(img, Names(Entries(img, root))[x])
  }

  ghost function AllWants(img: Image, live: set<nat>, root: nat): WantsMap
    requires DirOk(img, live, root)
  {
    map x | x in Names(Entries(img, root)) :: WantsAtName(img, live, root, x)
  }

  lemma OthersSameWants(a: Image, d: Image, live: set<nat>, skip: nat, ino: nat)
    requires OthersSame(a, d, live, skip) && ino in live && ino != skip && ino < |a.inodes|
    ensures ino < |d.inodes| && WantsOf(d, ino) == WantsOf(a, ino)
  {
    hide Val, WantsOf;
    assert forall t: Slot :: t.ino == ino && t.InRange() ==> Live(a, live, t);
    SameWants(a, d, ino);
  }

  /** A name that keeps its inode keeps its bytes, and lacks what it lacked, when that inode is not the one that
      changed. */
  lemma SameFile(a: Image, d: Image, live: set<nat>, liveA: set<nat>, liveD: set<nat>, root: nat, skip: nat, x: seq<Byte>)
    requires DirOk(a, liveA, root) && DirOk(d, liveD, root) && Sound(a, live) && OthersSame(a, d, live, skip)
    requires x in Names(Entries(a, root)) && x in Names(Entries(d, root))
    requires var ino := Names(Entries(a, root))[x];
      Names(Entries(d, root))[x] == ino && ino in live && ino != skip
    ensures FileAt(d, liveD, root, x) == FileAt(a, liveA, root, x)
    ensures WantsAtName(d, liveD, root, x) == WantsAtName(a, liveA, root, x)
  {
    hide DirOk, Entries, Names, OthersSame, Sound, Contents, WantsOf;
    DirSound(a, liveA, root);
    NamedInode(a, liveA, root, x);
    NamedInode(d, liveD, root, x);
    OthersSameContents(a, d, live, skip, Names(Entries(a, root))[x]);
    OthersSameWants(a, d, live, skip, Names(Entries(a, root))[x]);
  }

  /** A created file is empty and every other file keeps its bytes. */
  lemma CreateFiles(a: Image, d: Image, live: set<nat>, root: nat, name: seq<Byte>, ino: nat)
    requires DirOk(a, live, root) && DirOk(d, live + {ino}, root) && Created(a, d, live, root, name, ino)
    requires 0 !in name && name !in Names(Entries(a, root))
    ensures Files(d, live + {ino}, root) == if HasRoom(a, root) then Files(a, live, root)[name := []] else Files(a, live, root)
    ensures AllWants(d, live + {ino}, root) ==
            if HasRoom(a, root) then AllWants(a, live, root)[name := NewWants()] else AllWants(a, live, root)
  {
    hide Entries, HasRoom, DirOk, CString, Padded, Created, Names, FileAt, WantsAtName, NewWants, Sound, OthersSame;
    CreatedNames(a, d, live, root, name, ino);
    CreatedParts(a, d, live, root, name, ino);
    DirSound(a, live, root);
    forall x | x in Names(Entries(a, root))
      ensures FileAt(d, live + {ino}, root, x) == FileAt(a, live, root, x)
      ensures WantsAtName(d, live + {ino}, root, x) == WantsAtName(a, live, root, x)
    {
      NamedInode(a, live, root, x);
      SameFile(a, d, live, live, live + {ino}, root, root, x);
    }
    if HasRoom(a, root) {
      EmptyFile(d, live + {ino}, root, name, ino);
    }
  }

  lemma CreatedParts(a: Image, d: Image, live: set<nat>, root: nat, name: seq<Byte>, ino: nat)
    requires Created(a, d, live, root, name, ino)
    ensures OthersSame(a, d, live, root) && ino < |d.inodes| && d.inodes[ino] == EMPTY_INODE
    ensures root < |a.inodes| && a.inodes[root].size <= MAX_FILE_SIZE
    ensures root < |d.inodes| && d.inodes[root].size <= MAX_FILE_SIZE
  {
  }

  lemma EmptyFile(d: Image, live: set<nat>, root: nat, x: seq<Byte>, ino: nat)
    requires DirOk(d, live, root) && x in Names(Entries(d, root)) && Names(Entries(d, root))[x] == ino
    requires ino < |d.inodes| && d.inodes[ino] == EMPTY_INODE
    ensures FileAt(d, live, root, x) == [] && WantsAtName(d, live, root, x) == NewWants()
  {
    hide DirOk, Entries, Names, NewWants, WantsOf;
    EmptyWants(d, ino);
  }

  lemma CreatedNames(a: Image, d: Image, live: set<nat>, root: nat, name: seq<Byte>, ino: nat)
    requires DirOk(a, live, root) && Created(a, d, live, root, name, ino) && 0 !in name && name !in Names(Entries(a, root))
    ensures Names(Entries(d, root)) ==
            if HasRoom(a, root) then Names(Entries(a, root))[name := ino] else Names(Entries(a, root))
  {
    hide Entries, HasRoom, EntryAt, CString, Padded;
    EntriesLength(a, root);
    forall n | 0 <= n < Count(a, root)
      ensures NameOf(EntryAt(a, root, n)) != name
    {
      NamesAt(Entries(a, root), NameOf(Entries(a, root)[n]), Entries(a, root)[n].inode);
    }
    CreateNames(a, live, root, name, ino);
  }

  /** A deleted file is gone and every other file keeps its bytes. */
  lemma DeleteFiles(a: Image, d: Image, live: set<nat>, root: nat, n: nat)
    requires DirOk(a, live, root) && Deleted(a, d, live, root, n)
    requires DirOk(d, live - {Entries(a, root)[n].inode}, root)
    ensures Files(d, live - {Entries(a, root)[n].inode}, root) == Files(a, live, root) - {NameOf(Entries(a, root)[n])}
    ensures AllWants(d, live - {Entries(a, root)[n].inode}, root) == AllWants(a, live, root) - {NameOf(Entries(a, root)[n])}
  {
    hide Entries, DirOk, CString, WellNamed, Deleted, FileAt, WantsAtName, Sound, OthersSame, Names, RemoveAt;
    DirSound(a, live, root);
    EntriesLength(a, root);
    DeletedParts(a, d, live, root, n);
    var ino, name := Entries(a, root)[n].inode, NameOf(Entries(a, root)[n]);
    DirWellNamed(a, live, root);
    RemoveNames(Entries(a, root), live, root, n);
    DirSound(a, live, root);
    SmallerLive(a, live, ino);
    forall x | x in Names(Entries(d, root))
      ensures FileAt(d, live - {ino}, root, x) == FileAt(a, live, root, x)
      ensures WantsAtName(d, live - {ino}, root, x) == WantsAtName(a, live, root, x)
    {
      NamedInode(d, live - {ino}, root, x);
      SameFile(a, d, live - {ino}, live, live - {ino}, root, root, x);
    }
    NamesAtEntry(a, live, root, n);
  }

  lemma DeletedParts(a: Image, d: Image, live: set<nat>, root: nat, n: nat)
    requires DirOk(a, live, root) && Deleted(a, d, live, root, n)
    ensures root < |d.inodes| && d.inodes[root].size <= MAX_FILE_SIZE
    ensures n < |Entries(a, root)| && Entries(d, root) == RemoveAt(Entries(a, root), n)
    ensures OthersSame(a, d, live - {Entries(a, root)[n].inode}, root)
  {
    EntriesLength(a, root);
  }

  lemma NamesAtEntry(a: Image, live: set<nat>, root: nat, n: nat)
    requires DirOk(a, live, root) && n < |Entries(a, root)|
    ensures NameOf(Entries(a, root)[n]) in Names(Entries(a, root))
  {
    NamesAt(Entries(a, root), NameOf(Entries(a, root)[n]), Entries(a, root)[n].inode);
  }

  lemma DirWellNamed(a: Image, live: set<nat>, root: nat)
    requires DirOk(a, live, root)
    ensures WellNamed(Entries(a, root), live, root)
  {
  }

  lemma SmallerLive(a: Image, live: set<nat>, ino: nat)
    requires Sound(a, live)
    ensures Sound(a, live - {ino})
  {
    assert forall t: Slot :: Live(a, live - {ino}, t) ==> Live(a, live, t);
  }

  /** Calls through a handle of one file change that file only. */
  lemma HandleFiles(a: Image, d: Image, live: set<nat>, root: nat, name: seq<Byte>)
    requires DirOk(a, live, root) && name in Names(Entries(a, root)) && Sound(d, live) && d.inodeBits == a.inodeBits
    requires OthersSame(a, d, live, Names(Entries(a, root))[name])
    ensures DirOk(d, live, root) && Entries(d, root) == Entries(a, root)
    ensures Files(d, live, root) == Files(a, live, root)[name := FileAt(d, live, root, name)]
    ensures AllWants(d, live, root) == AllWants(a, live, root)[name := WantsAtName(d, live, root, name)]
  {
    hide CString, WellNamed, DirOk, Entries, Names, FileAt, WantsAtName, Sound, OthersSame;
    DirSound(a, live, root);
    HandleDir(a, d, live, root, name);
    forall x | x in Names(Entries(a, root)) && x != name
      ensures FileAt(d, live, root, x) == FileAt(a, live, root, x)
      ensures WantsAtName(d, live, root, x) == WantsAtName(a, live, root, x)
    {
      NamedInode(a, live, root, x);
      NamesDiffer(a, live, root, x, name);
      SameFile(a, d, live, live, live, root, Names(Entries(a, root))[name], x);
    }
  }

  lemma HandleDir(a: Image, d: Image, live: set<nat>, root: nat, name: seq<Byte>)
    requires DirOk(a, live, root) && name in Names(Entries(a, root)) && Sound(d, live) && d.inodeBits == a.inodeBits
    requires OthersSame(a, d, live, Names(Entries(a, root))[name])
    ensures DirOk(d, live, root) && Entries(d, root) == Entries(a, root)
  {
    hide CString, WellNamed, Entries, Names, Mapped, Owned;
    NamedInode(a, live, root, name);
    RootKept(a, d, live, root, Names(Entries(a, root))[name]);
  }

  lemma RootKept(a: Image, d: Image, live: set<nat>, root: nat, ino: nat)
    requires DirOk(a, live, root) && OthersSame(a, d, live, ino) && ino != root
    ensures d.inodes[root] == a.inodes[root] && Entries(d, root) == Entries(a, root)
  {
    forall m: nat | m < Count(a, root)
      ensures EntryAt(d, root, m) == EntryAt(a, root, m)
    {
      DentryBlocksMapped(a, live, root, m);
      assert Leaf(root, m / PER_BLOCK) in Path(Leaf(root, m / PER_BLOCK));
      assert Live(a, live, Leaf(root, m / PER_BLOCK));
    }
  }

  // ---------------------------------------------------------------- runs

  /** The volume as its user sees it: the files, the blocks that each of them and the directory lack for each size,
      and how many blocks and inodes are free. */
  datatype Snapshot = Snapshot(files: FileMap, wants: WantsMap, dirWants: Wants, free: nat, freeInodes: nat) {
    /** The blocks that the directory lacks for one more entry. */
    function EntryCost(): nat {
      if |files| / PER_BLOCK < MAX_BLOCKS then dirWants[|files| / PER_BLOCK + 1] else 0
    }

    /** A create is accepted exactly when the name fits, is new, and an inode is free. */
    predicate Accepts(name: seq<Byte>) {
      |name| < NAME_LEN && name !in files && freeInodes > 0
    }

    /** An accepted create takes an inode and, for the directory, the blocks that it lacks or all that are free; the
        file is there, and empty, exactly when those were enough. */
    function AfterCreate(name: seq<Byte>): Snapshot
      requires Accepts(name)
    {
      var taken := Min(free, EntryCost());
      var s := this.(dirWants := Minus(dirWants, taken), free := free - taken, freeInodes := freeInodes - 1);
      if EntryCost() <= free then s.(files := files[name := []], wants := wants[name := NewWants()]) else s
    }

    /** A delete gives back an inode and as many blocks as a file of that size has. */
    function AfterDelete(name: seq<Byte>): Snapshot
      requires name in files
    {
      Snapshot(files - {name}, wants - {name}, dirWants, free + SlotCount(NumBlocks(|files[name]|)), freeInodes + 1)
    }

    /** The file as a handle just opened sees it. */
    function Opened(name: seq<Byte>): Cursor
      requires name in files && name in wants
    {
      Cursor(files[name], 0, wants[name], free)
    }

    /** The volume after calls through a handle of the file, which now sees `c`. */
    function AfterUse(name: seq<Byte>, c: Cursor): Snapshot {
      this.(files := files[name := c.bytes], wants := wants[name := c.wants], free := c.free)
    }
  }

  ghost function Snap(img: Image, live: set<nat>, root: nat): Snapshot
    requires DirOk(img, live, root)
  {
    Snapshot(Files(img, live, root), AllWants(img, live, root), WantsOf(img, root), FreeCount(img.dataBits), FreeCount(img.inodeBits))
  }

  lemma {:induction false} NamesSize(ents: seq<Dentry>)
    requires DistinctNames(ents)
    ensures |Names(ents)| == |ents|
  {
    hide CString;
    if ents != [] {
      var last := |ents| - 1;
      NamesSize(ents[..last]);
      if NameOf(ents[last]) in Names(ents[..last]) {
        NamesAt(ents[..last], NameOf(ents[last]), Names(ents[..last])[NameOf(ents[last])]);
      }
    }
  }

  /** The directory has one entry a file, so its next entry lacks what the snapshot says. */
  lemma EntryCostIs(img: Image, live: set<nat>, root: nat)
    requires DirOk(img, live, root)
    ensures root < |img.inodes| && |Files(img, live, root)| == Count(img, root) < DENTRY_LIMIT
    ensures Snap(img, live, root).EntryCost() == Missing(img, Leaf(root, Count(img, root) / PER_BLOCK))
    ensures HasRoom(img, root) <==> Snap(img, live, root).EntryCost() <= FreeCount(img.dataBits)
    ensures RunsOut(img, root) <==> 0 < FreeCount(img.dataBits) < Snap(img, live, root).EntryCost()
  {
    hide Sound, Entries, FileAt, WantsAtName, EntryAt, CString, Lacking, Missing, FreeCount, Names, Leaf;
    DirBound(img, live, root);
    NamesSize(Entries(img, root));
    assert Files(img, live, root).Keys == Names(Entries(img, root)).Keys;
    assert |Files(img, live, root)| == |Names(Entries(img, root))|;
    MappedFile(img, live, root);
    LackingNext(img, root, Count(img, root) / PER_BLOCK);
    WantsAt(img, root);
  }

  /** `Use` opens a file, makes the calls through the handle, and closes it; `List` opens the empty name and reads
      all names. */
  datatype Op = Create(name: seq<Byte>) | Delete(name: seq<Byte>) | Use(name: seq<Byte>, calls: seq<Call>) | List

  datatype OpReply = Status(ok: bool) | Replies(replies: seq<Reply>) | Listed(names: seq<seq<Byte>>)

  /** One operation: what is answered and what the volume is afterwards. */
  ghost predicate OpBehaves(s: Snapshot, op: Op, reply: OpReply, s': Snapshot) {
    match op
    case Create(name) => reply == Status(s.Accepts(name)) && s' == if s.Accepts(name) then s.AfterCreate(name) else s
    case Delete(name) => reply == Status(name in s.files) && s' == if name in s.files then s.AfterDelete(name) else s
    case Use(name, calls) =>
      if name !in s.files then reply == Status(false) && s' == s
      else reply.Replies? && exists views: seq<Cursor> :: Session(s, views, calls, reply.replies, s', name)
    case List => reply.Listed? && EachOnce(reply.names, s.files) && s' == s
  }

  /** A run of calls on one file, from its start; nothing else changes but the number of free blocks. */
  ghost predicate Session(s: Snapshot, views: seq<Cursor>, calls: seq<Call>, replies: seq<Reply>, s': Snapshot, name: seq<Byte>) {
    && Run(views, calls, replies) && name in s.files && name in s.wants
    && views[0] == s.Opened(name) && s' == s.AfterUse(name, views[|calls|])
  }

  /** Every name of the map is listed, exactly once, and nothing else. */
  ghost predicate EachOnce(names: seq<seq<Byte>>, m: FileMap) {
    && (forall x :: x in names <==> x in m)
    && (forall i, j :: 0 <= i < j < |names| ==> names[i] != names[j])
  }

  datatype Handle = FileHandle(file: File) | ListingHandle(listing: Listing)

  /** ktfs_open: the empty name gives the listing, even if there is a file with that name; any other name gives a
      handle at position 0 with the size found in the inode. */
  method Open(dir: Directory, name: seq<Byte>, ghost live: set<nat>) returns (h: Option<Handle>)
    requires DirOk(dir.volume.Img(), live, dir.root)
    ensures h.Some? <==> name == [] || name in Names(Entries(dir.volume.Img(), dir.root))
    ensures h.Some? && name == [] ==>
              h.value.ListingHandle? && fresh(h.value.listing) && h.value.listing.dir == dir && h.value.listing.index == 0
    ensures h.Some? && name != [] ==>
              && h.value.FileHandle? && fresh(h.value.file) && h.value.file.volume == dir.volume && h.value.file.pos == 0
              && h.value.file.ino == Names(Entries(dir.volume.Img(), dir.root))[name]
              && InStep(h.value.file, live)
  {
    hide Sound, CString, EntryAt, WellNamed, NoneNamed, Names;
    if name == [] {
      var listing := new Listing(dir);
      return Some(ListingHandle(listing));
    }
    ghost var img, root := dir.volume.Img(), dir.root;
    DirSound(img, live, root);
    var found := dir.Find(name, live);
    FoundName(img, live, root, name, found);
    if found.None? {
      return None;
    }
    NamedInode(img, live, root, name);
    DentryIs(img, root, found.value.index);
    FoundInode(img, live, root, name, found.value.index);
    var ino := DentryAt(dir.volume.data[found.value.block], found.value.entry).inode;
    var file := new File(dir.volume, ino);
    h := Some(FileHandle(file));
  }

  lemma FoundInode(img: Image, live: set<nat>, root: nat, name: seq<Byte>, n: nat)
    requires DirOk(img, live, root) && n < Count(img, root) && NameOf(EntryAt(img, root, n)) == name
    ensures name in Names(Entries(img, root)) && Names(Entries(img, root))[name] == EntryAt(img, root, n).inode
  {
    EntriesLength(img, root);
    NamesAt(Entries(img, root), name, EntryAt(img, root, n).inode);
  }

  method DoUse(dir: Directory, name: seq<Byte>, calls: seq<Call>, ghost live: set<nat>) returns (reply: OpReply)
    requires DirOk(dir.volume.Img(), live, dir.root) && name != []
    modifies dir.volume
    ensures DirOk(dir.volume.Img(), live, dir.root)
    ensures OpBehaves(old(Snap(dir.volume.Img(), live, dir.root)), Use(name, calls), reply, Snap(dir.volume.Img(), live, dir.root))
  {
    hide DirOk, Sound, OthersSame, Run, Entries, Names, Session, Snap, Contents, WantsOf, Tidy, AllGrow;
    ghost var a, root := dir.volume.Img(), dir.root;
    DirSound(a, live, root);
    FilesKeys(a, live, root);
    var h := Open(dir, name, live);
    if h.None? {
      return Status(false);
    }
    NamedInode(a, live, root, name);
    var replies, views := DoAll(h.value.file, calls, live);
    UseSession(a, dir.volume.Img(), live, root, name, views, calls, replies, h.value.file.pos);
    reply := Replies(replies);
  }

  lemma FilesKeys(img: Image, live: set<nat>, root: nat)
    requires DirOk(img, live, root)
    ensures forall x :: x in Snap(img, live, root).files <==> x in Names(Entries(img, root))
  {
    hide DirOk, Names, Entries, FileAt, WantsAtName;
  }

  /** A run of calls through a handle, as the volume sees it. */
  lemma UseSession(a: Image, d: Image, live: set<nat>, root: nat, name: seq<Byte>, views: seq<Cursor>, calls: seq<Call>, replies: seq<Reply>, pos: nat)
    requires DirOk(a, live, root) && name in Names(Entries(a, root)) && Sound(d, live) && d.inodeBits == a.inodeBits
    requires var ino := Names(Entries(a, root))[name];
      && OthersSame(a, d, live, ino) && ino < |a.inodes| && a.inodes[ino].size <= MAX_FILE_SIZE
      && ino < |d.inodes| && d.inodes[ino].size <= MAX_FILE_SIZE
      && Run(views, calls, replies) && views[0] == CursorOf(a, ino, 0) && views[|calls|] == CursorOf(d, ino, pos)
    ensures DirOk(d, live, root)
    ensures Session(Snap(a, live, root), views, calls, replies, Snap(d, live, root), name)
  {
    hide DirOk, Entries, Names, Sound, OthersSame, Contents, WantsOf, FreeCount, Run;
    DirSound(a, live, root);
    NamedInode(a, live, root, name);
    HandleFiles(a, d, live, root, name);
    OthersSameWants(a, d, live, Names(Entries(a, root))[name], root);
  }

  /** All names of the directory, through the listing, with a buffer that holds any of them. */
  method DoList(dir: Directory, ghost live: set<nat>) returns (reply: OpReply)
    requires DirOk(dir.volume.Img(), live, dir.root)
    ensures OpBehaves(Snap(dir.volume.Img(), live, dir.root), List, reply, Snap(dir.volume.Img(), live, dir.root))
  {
    hide DirOk, Names, Sound, Contents, Limit, HasRoom, FreeCount, Entries, NameOf, EachOnce, Files;
    ghost var img, root := dir.volume.Img(), dir.root;
    DirSound(img, live, root);
    ghost var ents := Entries(img, root);
    var h := Open(dir, [], live);
    var listing := h.value.listing;
    var names: seq<seq<Byte>> := [];
    while true
      invariant listing.dir == dir && listing.index == |names| <= |ents| && dir.volume.Img() == img && fresh(listing)
      invariant forall i :: 0 <= i < |names| ==> names[i] == NameOf(ents[i])
      decreases |ents| - |names|
    {
      if listing.index < |ents| {
        NameFits(img, live, root, listing.index);
      }
      var r := listing.Read(NAME_LEN, live);
      if r == Ok([]) {
        break;
      }
      names := names + [r.value[..|r.value| - 1]];
    }
    AllListed(img, live, root, names);
    reply := Listed(names);
  }

  lemma NameFits(img: Image, live: set<nat>, root: nat, n: nat)
    requires DirOk(img, live, root) && n < |Entries(img, root)|
    ensures |NameOf(Entries(img, root)[n])| < NAME_LEN
  {
    CStringLength(Entries(img, root)[n].name);
  }

  lemma AllListed(img: Image, live: set<nat>, root: nat, names: seq<seq<Byte>>)
    requires DirOk(img, live, root) && |names| == |Entries(img, root)|
    requires forall i :: 0 <= i < |names| ==> names[i] == NameOf(Entries(img, root)[i])
    ensures EachOnce(names, Files(img, live, root))
  {
    hide CString, Sound, EntryAt, FileAt;
    var ents := Entries(img, root);
    forall x
      ensures x in names <==> x in Names(ents)
    {
      if x in names {
        var i :| 0 <= i < |names| && names[i] == x;
        NamesAt(ents, x, ents[i].inode);
      }
      if x in Names(ents) {
        NamesAt(ents, x, Names(ents)[x]);
      }
    }
  }

  /** Whether a create would go wrong: it is accepted, and takes as an index block one that is not blank, or runs out of
      blocks on the way. */
  ghost predicate GoesWrong(img: Image, live: set<nat>, root: nat, op: Op)
    requires DirOk(img, live, root) && root < |img.inodes|
  {
    op.Create? && Snap(img, live, root).Accepts(op.name) && (!IndexReady(img, root) || RunsOut(img, root))
  }

  method WouldGoWrong(dir: Directory, op: Op, ghost live: set<nat>) returns (wrong: bool)
    requires DirOk(dir.volume.Img(), live, dir.root) && dir.root < |dir.volume.inodes|
    ensures wrong <==> GoesWrong(dir.volume.Img(), live, dir.root, op)
  {
    hide Sound, CString, EntryAt, WellNamed, NoneNamed, Names, Contents, Limit, HasRoom, IndexReady, RunsOut, Entries, BitList, Bits;
    if !op.Create? || |op.name| >= NAME_LEN {
      return false;
    }
    var v := dir.volume;
    ghost var img := v.Img();
    DirSound(img, live, dir.root);
    var found := dir.Find(op.name, live);
    FoundName(img, live, dir.root, op.name, found);
    var num, pins := v.FindFreeInode();
    FreeInodes(img);
    BitListIsBits(v.inodeBitmap);
    BitListIsBits(v.dataBitmap);
    var held := Image(BitList(v.inodeBitmap), BitList(v.dataBitmap), v.inodes, v.data);
    wrong := found.None? && num.Ok? && (!IndexReady(held, dir.root) || RunsOut(held, dir.root));
  }

  method DoOp(dir: Directory, op: Op, ghost live: set<nat>) returns (reply: OpReply, ghost live': set<nat>)
    requires DirOk(dir.volume.Img(), live, dir.root) && dir.root < |dir.volume.inodes|
    requires op.Create? ==> 0 !in op.name
    requires op.Use? ==> op.name != []
    requires !GoesWrong(dir.volume.Img(), live, dir.root, op)
    modifies dir.volume
    ensures DirOk(dir.volume.Img(), live', dir.root)
    ensures OpBehaves(old(Snap(dir.volume.Img(), live, dir.root)), op, reply, Snap(dir.volume.Img(), live', dir.root))
  {
    hide DirOk, Entries, Names, Sound, OthersSame, IndexReady, RunsOut, Created, Deleted, Session, Snap;
    ghost var a, root := dir.volume.Img(), dir.root;
    FilesKeys(a, live, root);
    live' := live;
    match op
    case Create(name) =>
      var r, unsaved, ino := dir.Create(name, live);
      FreeInodes(a);
      SnapParts(a, live, root);
      if r.Ok? {
        live' := live + {ino};
        CreateSnap(a, dir.volume.Img(), live, root, name, ino);
      }
      reply := Status(r.Ok?);
    case Delete(name) =>
      var r, n := dir.Delete(name, live);
      if r.Ok? {
        EntriesLengthOf(a, live, root);
        live' := live - {Entries(a, root)[n].inode};
        DeleteSnap(a, dir.volume.Img(), live, root, n);
      }
      reply := Status(r.Ok?);
    case Use(name, calls) =>
      reply := DoUse(dir, name, calls, live);
    case List =>
      reply := DoList(dir, live);
  }

  lemma EntriesLengthOf(a: Image, live: set<nat>, root: nat)
    requires DirOk(a, live, root)
    ensures root < |a.inodes| && a.inodes[root].size <= MAX_FILE_SIZE && |Entries(a, root)| == Count(a, root)
  {
    EntriesLength(a, root);
  }

  /** What an accepted create does, seen from outside. */
  lemma CreateSnap(a: Image, d: Image, live: set<nat>, root: nat, name: seq<Byte>, ino: nat)
    requires DirOk(a, live, root) && DirOk(d, live + {ino}, root) && Created(a, d, live, root, name, ino)
    requires 0 !in name && Snap(a, live, root).Accepts(name)
    ensures Snap(d, live + {ino}, root) == Snap(a, live, root).AfterCreate(name)
    ensures HasRoom(a, root) <==> Snap(a, live, root).EntryCost() <= FreeCount(a.dataBits)
  {
    hide DirOk, Entries, Names, Created, HasRoom, FreeCount, Missing, WantsOf, Minus, NewWants, FileAt, WantsAtName;
    DirSound(a, live, root);
    EntryCostIs(a, live, root);
    CreateFiles(a, d, live, root, name, ino);
    CreatedInodes(a, d, live, root, name, ino);
    CreatedBlocks(a, d, live, root, name, ino);
  }

  lemma CreatedBlocks(a: Image, d: Image, live: set<nat>, root: nat, name: seq<Byte>, ino: nat)
    requires Created(a, d, live, root, name, ino) && Count(a, root) < DENTRY_LIMIT
    ensures FreeCount(d.dataBits) == Less(FreeCount(a.dataBits), Missing(a, Leaf(root, Count(a, root) / PER_BLOCK)))
    ensures WantsOf(d, root) == Minus(WantsOf(a, root), FreeCount(a.dataBits) - FreeCount(d.dataBits))
  {
    hide Entries, OthersSame, HasRoom, NoLeaks, Missing, FreeCount, WantsOf, Minus, SameTree, Grew;
    GrewWants(a, d, root);
  }

  /** What a delete does, seen from outside. */
  lemma DeleteSnap(a: Image, d: Image, live: set<nat>, root: nat, n: nat)
    requires DirOk(a, live, root) && Deleted(a, d, live, root, n)
    requires DirOk(d, live - {Entries(a, root)[n].inode}, root)
    ensures NameOf(Entries(a, root)[n]) in Snap(a, live, root).files
    ensures Snap(d, live - {Entries(a, root)[n].inode}, root) == Snap(a, live, root).AfterDelete(NameOf(Entries(a, root)[n]))
  {
    hide DirOk, Entries, Names, Deleted, FreeCount, WantsOf, SlotCount, WantsAtName, CString, Contents;
    DirSound(a, live, root);
    EntriesLengthOf(a, live, root);
    DeleteFiles(a, d, live, root, n);
    DeletedInodes(a, d, live, root, n);
    DeletedBlocks(a, d, live, root, n);
    DeletedWants(a, d, live, root, n);
    DeletedParts(a, d, live, root, n);
    InodeOfEntry(a, live, root, n);
    NamedInode(a, live, root, NameOf(Entries(a, root)[n]));
    ContentsLength(a, Entries(a, root)[n].inode);
  }

  lemma DeletedWants(a: Image, d: Image, live: set<nat>, root: nat, n: nat)
    requires Deleted(a, d, live, root, n)
    ensures WantsOf(d, root) == WantsOf(a, root)
  {
    hide Entries, RemoveAt, NoLeaks, NoneBeyond, OthersSame, ServedBy, WantsOf;
    SameWants(a, d, root);
  }

  lemma FreeInodes(a: Image)
    ensures HasFreeInode(a) <==> FreeCount(a.inodeBits) > 0
  {
    FreeCountFull(a.inodeBits);
  }

  lemma CreatedInodes(a: Image, d: Image, live: set<nat>, root: nat, name: seq<Byte>, ino: nat)
    requires Created(a, d, live, root, name, ino)
    ensures FreeCount(d.inodeBits) == FreeCount(a.inodeBits) - 1
  {
    hide Entries, OthersSame, TreeReady, HasRoom, NoLeaks;
    FreeCountTake(a.inodeBits, ino);
  }

  lemma DeletedInodes(a: Image, d: Image, live: set<nat>, root: nat, n: nat)
    requires DirOk(a, live, root) && Deleted(a, d, live, root, n)
    ensures FreeCount(d.inodeBits) == FreeCount(a.inodeBits) + 1
  {
    hide EntryAt, OthersSame, NoLeaks, NoneBeyond, RemoveAt;
    DirBound(a, live, root);
    var ino := Entries(a, root)[n].inode;
    FreeCountTake(d.inodeBits, ino);
    assert d.inodeBits[ino := true] == a.inodeBits;
  }

  // ---------------------------------------------------------------- conservation

  /** Create, write and delete a file: the data bitmap comes back, unless the directory had to grow. */
  lemma CreateUseDelete(a: Image, b: Image, c: Image, d: Image, live: set<nat>, root: nat, name: seq<Byte>, ino: nat, n: nat)
    requires DirOk(a, live, root) && NoLeaks(a, live) && ino !in live
    requires Created(a, b, live, root, name, ino) && DirOk(b, live + {ino}, root)
    requires Count(a, root) < DENTRY_LIMIT && Missing(a, Leaf(root, Count(a, root) / PER_BLOCK)) == 0
    requires Tidy(c, live + {ino}, ino) && DirOk(c, live + {ino}, root)
    requires OthersSame(b, c, live + {ino}, ino) && c.inodeBits == b.inodeBits
    requires Deleted(c, d, live + {ino}, root, n) && Entries(c, root)[n].inode == ino && DirOk(d, live, root)
    ensures d.dataBits == a.dataBits && d.inodeBits == a.inodeBits && NoLeaks(d, live)
  {
    hide Entries, WellNamed, EntryAt, Contents, Owned, Mapped, NoLeaks, Padded, CString, HasRoom;
    DirSound(a, live, root);
    DirSound(d, live, root);
    assert live + {ino} - {ino} == live;
    TrimNoneBeyond(c, ino);
    forall t: Slot | Live(a, live, t)
      ensures Val(d, t) == Val(a, t)
    {
      assert Live(b, live + {ino}, t) && Live(c, live + {ino}, t) && Live(c, live, t);
      if t.ino != root {
        assert Val(b, t) == Val(a, t);
        assert Val(c, t) == Val(b, t);
        assert Val(d, t) == Val(c, t);
      }
    }
    BitmapFollowsTrees(a, d, live);
  }

  /** The same as a program: a new file, any calls through its handle, and its removal. It runs to its end exactly
      when the create is accepted and the directory can take the entry; in any case every other file stays, and what
      becomes of the free blocks and inodes is known. With `unsaved`, what was taken for the directory is lost with the
      buffers that hold it. */
  method UseOnce(dir: Directory, name: seq<Byte>, calls: seq<Call>, ghost live: set<nat>)
    returns (ok: bool, replies: seq<Reply>, unsaved: bool, ghost views: seq<Cursor>, ghost live': set<nat>)
    requires DirOk(dir.volume.Img(), live, dir.root) && 0 !in name && name != []
    requires dir.root < |dir.volume.inodes|
    requires IndexReady(dir.volume.Img(), dir.root)
    modifies dir.volume
    ensures ok <==> var s := old(Snap(dir.volume.Img(), live, dir.root)); s.Accepts(name) && s.EntryCost() <= s.free
    ensures DirOk(dir.volume.Img(), live', dir.root)
            && Files(dir.volume.Img(), live', dir.root) == old(Files(dir.volume.Img(), live, dir.root))
    ensures !ok ==> var s := old(Snap(dir.volume.Img(), live, dir.root));
      Snap(dir.volume.Img(), live', dir.root) == if s.Accepts(name) then s.AfterCreate(name) else s
    ensures unsaved <==> var s := old(Snap(dir.volume.Img(), live, dir.root)); s.Accepts(name) && 0 < s.free < s.EntryCost()
    ensures ok ==> var s := old(Snap(dir.volume.Img(), live, dir.root)).AfterCreate(name);
      && live' == live && Run(views, calls, replies) && views[0] == s.Opened(name)
      && Snap(dir.volume.Img(), live, dir.root) == s.AfterUse(name, views[|calls|]).AfterDelete(name)
    ensures ok && AllGrow(views, calls, replies) && NoLeaks(old(dir.volume.Img()), live)
            && old(Snap(dir.volume.Img(), live, dir.root)).EntryCost() == 0
            ==> dir.volume.DataBits() == old(dir.volume.DataBits()) && dir.volume.InodeBits() == old(dir.volume.InodeBits())
  {
    hide DirOk, Entries, Names, Sound, OthersSame, Contents, Run, AllGrow, Created, Deleted, NoLeaks, HasRoom,
      RunsOut, IndexReady, Missing, Tidy, Trim, FreeCount, FileAt, Snap, Session, WantsAtName, CursorOf, CString,
      Leaf, Snapshot.AfterDelete, Snapshot.AfterUse, Snapshot.EntryCost, Snapshot.Opened;
    ghost var a, root := dir.volume.Img(), dir.root;
    FilesKeys(a, live, root);
    FreeInodes(a);
    SnapParts(a, live, root);
    EntryCostIs(a, live, root);
    ok, replies, unsaved, views, live' := false, [], false, [], live;
    var r, pending, ino := dir.Create(name, live);
    unsaved := pending;
    if r.Err? {
      return;
    }
    ghost var b := dir.volume.Img();
    live' := live + {ino};
    CreateSnap(a, b, live, root, name, ino);
    SnapParts(b, live', root);
    CreatedNames(a, b, live, root, name, ino);
    var h := Open(dir, name, live');
    if h.None? {
      return;
    }
    NewFileTidy(a, b, live, root, name, ino);
    if NoLeaks(a, live) {
      TidyParts(b, live', ino);
    }
    CreatedParts(a, b, live, root, name, ino);
    replies, views := DoAll(h.value.file, calls, live');
    ghost var c := dir.volume.Img();
    UseSession(b, c, live', root, name, views, calls, replies, h.value.file.pos);
    SessionParts(Snap(b, live', root), views, calls, replies, Snap(c, live', root), name);
    HandleFiles(b, c, live', root, name);
    var gone, n := dir.Delete(name, live');
    ghost var d := dir.volume.Img();
    DirSound(c, live', root);
    EntriesLength(c, root);
    NewInodeFree(a, b, live, root, name, ino);
    InodeOfEntry(c, live', root, n);
    assert live' - {ino} == live;
    DeleteSnap(c, d, live', root, n);
    FilesBack(Snap(a, live, root), name, views[|calls|]);
    SnapParts(d, live, root);
    if AllGrow(views, calls, replies) && NoLeaks(a, live) && Missing(a, Leaf(root, Count(a, root) / PER_BLOCK)) == 0 {
      CreateUseDelete(a, b, c, d, live, root, name, ino, n);
    }
    ok, live' := true, live;
  }

  lemma SessionParts(s: Snapshot, views: seq<Cursor>, calls: seq<Call>, replies: seq<Reply>, s': Snapshot, name: seq<Byte>)
    requires Session(s, views, calls, replies, s', name)
    ensures |views| == |calls| + 1 && Run(views, calls, replies) && name in s.files && name in s.wants
    ensures views[0] == s.Opened(name) && s' == s.AfterUse(name, views[|calls|])
  {
    hide Behaves;
  }

  lemma SnapParts(img: Image, live: set<nat>, root: nat)
    requires DirOk(img, live, root)
    ensures var s := Snap(img, live, root);
      s.files == Files(img, live, root) && s.free == FreeCount(img.dataBits) && s.freeInodes == FreeCount(img.inodeBits)
  {
    hide DirOk, FreeCount, WantsOf;
  }

  /** Creating, using and deleting a file leaves the other files. */
  lemma FilesBack(s: Snapshot, name: seq<Byte>, c: Cursor)
    requires s.Accepts(name) && s.EntryCost() <= s.free
    ensures s.AfterCreate(name).AfterUse(name, c).AfterDelete(name).files == s.files
  {
    hide NewWants, Minus, SlotCount;
    MapRestored(s.files, name, [], c.bytes);
  }

  lemma TidyParts(b: Image, live: set<nat>, ino: nat)
    requires NoLeaks(b, live) && Trim(b, ino)
    ensures Tidy(b, live, ino)
  {
  }

  lemma NewInodeFree(a: Image, b: Image, live: set<nat>, root: nat, name: seq<Byte>, ino: nat)
    requires DirOk(a, live, root) && Created(a, b, live, root, name, ino)
    ensures ino !in live
  {
  }

  lemma InodeOfEntry(c: Image, live: set<nat>, root: nat, n: nat)
    requires DirOk(c, live, root) && n < |Entries(c, root)|
    ensures NameOf(Entries(c, root)[n]) in Names(Entries(c, root))
    ensures Names(Entries(c, root))[NameOf(Entries(c, root)[n])] == Entries(c, root)[n].inode
  {
    NamesAt(Entries(c, root), NameOf(Entries(c, root)[n]), Entries(c, root)[n].inode);
  }

  lemma MapRestored(m: FileMap, x: seq<Byte>, v: seq<Byte>, w: seq<Byte>)
    requires x !in m
    ensures m[x := v][x := w] - {x} == m
  {
  }

  lemma NewFileTidy(a: Image, b: Image, live: set<nat>, root: nat, name: seq<Byte>, ino: nat)
    requires Created(a, b, live, root, name, ino)
    ensures NoLeaks(a, live) ==> NoLeaks(b, live + {ino})
    ensures Trim(b, ino)
  {
    hide Entries, OthersSame, TreeReady, HasRoom, NoLeaks;
  }

  lemma TrimNoneBeyond(c: Image, ino: nat)
    requires Trim(c, ino)
    ensures NoneBeyond(c, ino)
  {
  }

  /** `snaps` are the snapshots before, between and after the operations. */
  ghost predicate OpRun(snaps: seq<Snapshot>, ops: seq<Op>, replies: seq<OpReply>) {
    && |snaps| == |ops| + 1 && |replies| == |ops|
    && forall i :: 0 <= i < |ops| ==> OpBehaves(snaps[i], ops[i], replies[i], snaps[i + 1])
  }

  /** A directory that stays within its four direct blocks needs no index block. */
  lemma SmallDirectoryReady(img: Image, live: set<nat>, root: nat)
    requires DirOk(img, live, root) && Count(img, root) < NUM_DIRECT * PER_BLOCK
    ensures IndexReady(img, root)
  {
  }

  /** Every run of creates, deletes, file sessions and listings is a run of a map from names to byte sequences, up to
      the first create, if any, that would go wrong. */
  method RunAll(dir: Directory, ops: seq<Op>, ghost live: set<nat>)
    returns (n: nat, replies: seq<OpReply>, ghost snaps: seq<Snapshot>, ghost live': set<nat>)
    requires DirOk(dir.volume.Img(), live, dir.root)
    requires forall i :: 0 <= i < |ops| && ops[i].Create? ==> 0 !in ops[i].name
    requires forall i :: 0 <= i < |ops| && ops[i].Use? ==> ops[i].name != []
    modifies dir.volume
    ensures DirOk(dir.volume.Img(), live', dir.root) && n <= |ops|
    ensures n < |ops| ==> dir.root < |dir.volume.inodes| && GoesWrong(dir.volume.Img(), live', dir.root, ops[n])
    ensures OpRun(snaps, ops[..n], replies)
    ensures snaps[0] == old(Snap(dir.volume.Img(), live, dir.root)) && snaps[n] == Snap(dir.volume.Img(), live', dir.root)
  {
    hide DirOk, OpBehaves, Snap, GoesWrong;
    live' := live;
    n, replies, snaps := 0, [], [Snap(dir.volume.Img(), live, dir.root)];
    while n < |ops|
      invariant n <= |ops| && DirOk(dir.volume.Img(), live', dir.root)
      invariant OpRun(snaps, ops[..n], replies)
      invariant snaps[0] == old(Snap(dir.volume.Img(), live, dir.root)) && snaps[n] == Snap(dir.volume.Img(), live', dir.root)
    {
      DirSound(dir.volume.Img(), live', dir.root);
      var wrong := WouldGoWrong(dir, ops[n], live');
      if wrong {
        return;
      }
      var reply;
      reply, live' := DoOp(dir, ops[n], live');
      n, replies, snaps := n + 1, replies + [reply], snaps + [Snap(dir.volume.Img(), live', dir.root)];
    }
  }
}
