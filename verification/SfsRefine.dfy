/**
 * What a volume is to its callers: names, files and references, with no blocks and no free map. Every run of the
 * volume is a run of this model, answer for answer.
 */
module SfsRefine {
  import opened Words
  import opened SfsLayout
  import opened SfsState
  import opened SfsBmap
  import opened SfsIo
  import opened SfsTruncate
  import opened SfsVnode
  import opened SfsDir
  import opened SfsOps
  import opened SfsMount
  import opened SfsMkfs
  import opened SfsRun

  // ---- The model ---------------------------------------------------------

  /** The contents of a file: its size, and what it holds, past the size too. */
  datatype Data = Data(size: nat, bytes: seq<byte>)

  /** Which file each name is for, what the files hold, and how often each object is referred to and open. */
  datatype Model = Model(names: map<Name, nat>, files: map<nat, Data>, refs: map<nat, nat>, opens: map<nat, nat>)

  /** What a call answers. */
  datatype Answer = Fine | Failed(e: Errno) | Given(ino: nat) | Wrote(n: nat) | Gave(bytes: seq<byte>)

  function Hold(refs: map<nat, nat>, i: nat): map<nat, nat> {
    refs[i := (if i in refs then refs[i] else 0) + 1]
  }

  function Drop(refs: map<nat, nat>, i: nat): map<nat, nat> {
    if i in refs && refs[i] > 1 then refs[i := refs[i] - 1] else refs - {i}
  }

  /** May a name be entered, and if not, why not? Only lack of room is not for the caller to see. */
  predicate EnterMay(names: map<Name, nat>, name: Name, a: Answer) {
    if name in names then a == Failed(EEXIST)
    else if |name| >= NAMELEN then a == Failed(ENAMETOOLONG)
    else a == Fine || a == Failed(EINVAL) || a == Failed(ENOSPC)
  }

  /** A new file is one that is not there yet; a volume that is full says so first. */
  predicate CreatMay(m: Model, name: Name, excl: bool, a: Answer) {
    if name in m.names then a == if excl then Failed(EEXIST) else Given(m.names[name])
    else if |name| >= NAMELEN then a == Failed(ENAMETOOLONG) || a == Failed(ENOSPC)
    else a == Failed(EINVAL) || a == Failed(ENOSPC) || (a.Given? && a.ino != ROOT && a.ino !in m.files)
  }

  /** A read gives what the file holds from off on, all of it that was asked for if that is within the largest file. */
  predicate ReadMay(f: Data, off: nat, len: nat, b: seq<byte>) {
    && |b| <= Wanted(f.size, off, len)
    && (b != [] ==> off + |b| <= |f.bytes| && b == f.bytes[off..off + |b|])
    && (off + len <= MAXBYTES || f.size <= MAXBYTES ==> |b| == Wanted(f.size, off, len))
  }

  /** The answers that a call may give. */
  predicate May(m: Model, op: Op, a: Answer) {
    match op
    case DoLookup(name) => a == if name in m.names then Given(m.names[name]) else Failed(ENOENT)
    case DoCreat(name, excl) => CreatMay(m, name, excl, a)
    case DoLink(name, _) => EnterMay(m.names, name, a)
    case DoRemove(name) => a == if name in m.names then Fine else Failed(ENOENT)
    case DoRename(n1, n2) => if n1 in m.names then EnterMay(m.names, n2, a) else a == Failed(ENOENT)
    case DoRead(i, off, len) =>
      if i == ROOT then a == Failed(EISDIR) else i in m.files && a.Gave? && ReadMay(m.files[i], off, len, a.bytes)
    case DoWrite(i, off, d) =>
      if i == ROOT then a == Failed(EISDIR)
      else i in m.files && a.Wrote? && a.n <= |d| && (a.n > 0 ==> off + a.n <= |m.files[i].bytes|)
    case DoTruncate(i, _) => if i == ROOT then a == Failed(EISDIR) else i in m.files && a == Fine
    case _ => a == Fine
  }

  /** The bytes are laid over the file, and the size is where they end if that is further on. */
  function Laid(f: Data, off: nat, d: seq<byte>): Data
    requires d != [] ==> off + |d| <= |f.bytes|
  {
    Data(if off + |d| > f.size then off + |d| else f.size, Patch(f.bytes, off, d))
  }

  /** What the call itself changes. */
  function Act(m: Model, op: Op, a: Answer): Model
    requires May(m, op, a)
  {
    match op
    case GetRoot => m.(refs := Hold(m.refs, ROOT))
    case DoLookup(_) => if a.Given? then m.(refs := Hold(m.refs, a.ino)) else m
    case DoCreat(name, _) =>
      if !a.Given? then m
      else if name in m.names then m.(refs := Hold(m.refs, a.ino))
      else Model(m.names[name := a.ino], m.files[a.ino := Data(0, Zeros(MAXBYTES))], Hold(m.refs, a.ino), m.opens)
    case DoLink(name, i) => if a.Fine? then m.(names := m.names[name := i]) else m
    case DoRemove(name) => m.(names := m.names - {name})
    case DoRename(n1, n2) => if a.Fine? then m.(names := m.names[n2 := m.names[n1]] - {n1}) else m
    case DoWrite(i, off, d) =>
      if a.Wrote? then m.(files := m.files[i := Laid(m.files[i], off, d[..a.n])]) else m
    case DoTruncate(i, len) =>
      if !a.Fine? then m
      else m.(files := m.files[i := Data(len, Cut(m.files[i].bytes, (len + BLOCKSIZE - 1) / BLOCKSIZE))])
    case Incref(i) => m.(refs := Hold(m.refs, i))
    case DoDecref(i) => m.(refs := Drop(m.refs, i))
    case Incopen(i) => m.(opens := Hold(m.opens, i))
    case Decopen(i) => m.(opens := Drop(m.opens, i))
    case _ => m
  }

  /** Has the file a name, or does anyone hold it? */
  ghost predicate Reached(m: Model, i: nat) {
    i in m.refs || i in m.names.Values
  }

  /** A file that has neither a name nor a holder is gone. */
  ghost function Collect(m: Model): Model {
    m.(files := map i | i in m.files && Reached(m, i) :: m.files[i])
  }

  ghost function Next(m: Model, op: Op, a: Answer): Model
    requires May(m, op, a)
  {
    Collect(Act(m, op, a))
  }

  // ---- The volume as the model sees it -------------------------------------

  function Contents(fs: Fs, i: nat): Data {
    Data(FileOf(fs, i).size, FileOf(fs, i).bytes)
  }

  ghost function View(fs: Fs): Model {
    Model(NamesOf(fs),
          map i | i in LiveNow(fs) && i != ROOT :: Contents(fs, i),
          map i | i in LiveNow(fs) && RefCount(fs, i) > 0 :: RefCount(fs, i),
          map i | i in LiveNow(fs) && OpenCount(fs, i) > 0 :: OpenCount(fs, i))
  }

  function Reply<T>(r: Res<T>): Answer {
    match r case Ok(_) => Fine case Err(e) => Failed(e)
  }

  function ReplyIno(r: Res<nat>): Answer {
    match r case Ok(i) => Given(i) case Err(e) => Failed(e)
  }

  /** What the code answers. */
  function Answers(fs: Fs, op: Op): Answer
    requires Allowed(fs, op)
  {
    match op
    case DoLookup(name) => ReplyIno(Lookup(fs, name).1)
    case DoCreat(name, excl) => ReplyIno(Creat(fs, name, excl).1)
    case DoLink(name, i) => Reply(Link(fs, name, i).1)
    case DoRemove(name) => Reply(Remove(fs, name).1)
    case DoRename(n1, n2) => Reply(Rename(fs, n1, n2).1)
    case DoRead(i, off, len) => if i == ROOT then Failed(EISDIR) else Gave(ReadIo(fs, i, off, len).bytes)
    case DoWrite(i, off, d) => if i == ROOT then Failed(EISDIR) else Wrote(WriteIo(fs, i, off, d).done)
    case DoTruncate(i, _) => if i == ROOT then Failed(EISDIR) else Fine
    case _ => Fine
  }

  lemma InLive(fs: Fs, i: nat)
    requires Sound(fs)
    ensures RefCount(fs, i) > 0 <==> Loaded(fs, i)
    ensures i in LiveNow(fs) <==> i == ROOT || RefCount(fs, i) > 0 || i in NamesOf(fs).Values
  {
    hide Store, FileOf, MapSaved, Attrs, DirFile, SlotsOf, NameMap, LiveNow;
    var es := SlotsOf(fs);
    if Loaded(fs, i) {
      RefPositive(fs, LiveNow(fs), i);
    }
    if Named(es, i) {
      NamedIs(es, i);
    }
    if i in NamesOf(fs).Values {
      var name :| name in NamesOf(fs) && NamesOf(fs)[name] == i;
      FindNames(fs, name);
      FindLive(fs, LiveNow(fs), name);
    }
  }

  function Of(counts: map<nat, nat>, i: nat): nat {
    if i in counts then counts[i] else 0
  }

  /** References and open counts as the maps have them. */
  ghost predicate Tally(fs: Fs, refs: map<nat, nat>, opens: map<nat, nat>) {
    && (forall i :: RefCount(fs, i) == Of(refs, i)) && (forall i :: i in refs ==> refs[i] > 0)
    && (forall i :: OpenCount(fs, i) == Of(opens, i)) && (forall i :: i in opens ==> opens[i] > 0)
  }

  lemma ViewAt(fs: Fs)
    requires Sound(fs)
    ensures var m := View(fs);
      && m.names == NamesOf(fs) && Tally(fs, m.refs, m.opens)
      && m.files.Keys == LiveNow(fs) - {ROOT} && (forall i :: i in m.files ==> m.files[i] == Contents(fs, i))
  {
    hide InvBut, FileOf, SlotsOf, NameMap, LiveNow, RefCount, OpenCount;
    forall i: nat
      ensures RefCount(fs, i) == Of(View(fs).refs, i) && OpenCount(fs, i) == Of(View(fs).opens, i)
    {
      InLive(fs, i);
      NoneOpen(fs, LiveNow(fs), i);
    }
  }

  /** A sound volume with these names, contents and references is what the model has after a collection. */
  lemma ViewIs(fs: Fs, m: Model)
    requires Sound(fs) && m.names == NamesOf(fs) && Tally(fs, m.refs, m.opens) && ROOT !in m.files
    requires forall i :: i in LiveNow(fs) && i != ROOT ==> i in m.files && m.files[i] == Contents(fs, i)
    ensures View(fs) == Collect(m)
  {
    hide InvBut, FileOf, SlotsOf, NameMap, LiveNow, RefCount, OpenCount, Contents, Tally, View;
    ViewAt(fs);
    var v, c := View(fs), Collect(m);
    SameTally(fs, v.refs, v.opens, m.refs, m.opens);
    forall i: nat
      ensures i in v.files <==> i in c.files
    {
      InLive(fs, i);
      TallyRefs(fs, m.refs, m.opens, i);
    }
    assert v.files == c.files;
  }

  lemma TallyRefs(fs: Fs, refs: map<nat, nat>, opens: map<nat, nat>, i: nat)
    requires Tally(fs, refs, opens)
    ensures i in refs <==> RefCount(fs, i) > 0
  {
    hide RefCount, OpenCount;
  }

  lemma SameTally(fs: Fs, refs: map<nat, nat>, opens: map<nat, nat>, refs': map<nat, nat>, opens': map<nat, nat>)
    requires Tally(fs, refs, opens) && Tally(fs, refs', opens')
    ensures refs == refs' && opens == opens'
  {
    hide RefCount, OpenCount;
    forall i: nat
      ensures Of(refs, i) == Of(refs', i) && Of(opens, i) == Of(opens', i)
    {
      assert RefCount(fs, i) == Of(refs, i) && OpenCount(fs, i) == Of(opens, i);
    }
    assert forall i :: i in refs <==> Of(refs, i) > 0;
    assert forall i :: i in refs' <==> Of(refs', i) > 0;
    assert forall i :: i in opens <==> Of(opens, i) > 0;
    assert forall i :: i in opens' <==> Of(opens', i) > 0;
  }

  // ---- Every call ----------------------------------------------------------

  ghost predicate Refines(fs: Fs, op: Op)
    requires Allowed(fs, op)
  {
    May(View(fs), op, Answers(fs, op)) && View(Step(fs, op)) == Next(View(fs), op, Answers(fs, op))
  }

  /** Every live file has the contents that it had. */
  ghost predicate Intact(fs: Fs, fs': Fs, live: set<nat>) {
    forall i :: i in live && i != ROOT ==> Contents(fs', i) == Contents(fs, i)
  }

  lemma KeptIntact(fs: Fs, fs': Fs, live: set<nat>)
    requires Kept(fs, fs', live)
    ensures Intact(fs, fs', live)
  {
    hide FileOf;
  }

  lemma SameIntact(fs: Fs, fs': Fs, live: set<nat>)
    requires forall j :: j in live ==> FileOf(fs', j) == FileOf(fs, j)
    ensures Intact(fs, fs', live)
  {
    hide FileOf;
  }

  lemma HoldRefs(fs: Fs, fs': Fs, refs: map<nat, nat>, opens: map<nat, nat>, i: nat)
    requires Tally(fs, refs, opens) && SameCounts(fs, fs', i)
    requires RefCount(fs', i) == RefCount(fs, i) + 1 && OpenCount(fs', i) == OpenCount(fs, i)
    ensures Tally(fs', Hold(refs, i), opens)
  {
    hide RefCount, OpenCount, Loaded;
  }

  lemma DropRefs(fs: Fs, fs': Fs, refs: map<nat, nat>, opens: map<nat, nat>, i: nat)
    requires Tally(fs, refs, opens) && SameCounts(fs, fs', i)
    requires RefCount(fs', i) == RefCount(fs, i) - 1 && OpenCount(fs', i) == OpenCount(fs, i)
    ensures Tally(fs', Drop(refs, i), opens)
  {
    hide RefCount, OpenCount, Loaded;
  }

  lemma HoldOpens(fs: Fs, fs': Fs, refs: map<nat, nat>, opens: map<nat, nat>, i: nat)
    requires Tally(fs, refs, opens) && SameCounts(fs, fs', i)
    requires RefCount(fs', i) == RefCount(fs, i) && OpenCount(fs', i) == OpenCount(fs, i) + 1
    ensures Tally(fs', refs, Hold(opens, i))
  {
    hide RefCount, OpenCount, Loaded;
  }

  lemma DropOpens(fs: Fs, fs': Fs, refs: map<nat, nat>, opens: map<nat, nat>, i: nat)
    requires Tally(fs, refs, opens) && SameCounts(fs, fs', i)
    requires RefCount(fs', i) == RefCount(fs, i) && OpenCount(fs', i) == OpenCount(fs, i) - 1
    ensures Tally(fs', refs, Drop(opens, i))
  {
    hide RefCount, OpenCount, Loaded;
  }

  lemma KeptTally(fs: Fs, fs': Fs, refs: map<nat, nat>, opens: map<nat, nat>)
    requires Tally(fs, refs, opens) && CountsKept(fs, fs')
    ensures Tally(fs', refs, opens)
  {
    hide RefCount, OpenCount;
  }

  /** The files are those that were there, and the references or names are new. */
  lemma FilesStay(fs: Fs, fs': Fs, live: set<nat>, m: Model)
    requires Sound(fs) && Inv(fs', live) && live <= LiveNow(fs) && Intact(fs, fs', live)
    requires m.names == NamesOf(fs') && m.files == View(fs).files && Tally(fs', m.refs, m.opens)
    ensures View(fs') == Collect(m)
  {
    hide InvBut, Contents, NamesOf, LiveNow, RefCount, Tally, View, Collect;
    ViewAt(fs);
    LiveUnique(fs', live);
    ViewIs(fs', m);
  }

  lemma NothingNew(fs: Fs, fs': Fs, live: set<nat>)
    requires Inv(fs, live) && Inv(fs', live) && Intact(fs, fs', live)
    requires NamesOf(fs') == NamesOf(fs) && CountsKept(fs, fs')
    ensures View(fs') == Collect(View(fs))
  {
    hide InvBut, Contents, NamesOf, LiveNow, RefCount, View, Collect, Intact, Tally, CountsKept;
    LiveUnique(fs, live);
    ViewAt(fs);
    KeptTally(fs, fs', View(fs).refs, View(fs).opens);
    FilesStay(fs, fs', live, View(fs));
  }

  lemma OneMore(fs: Fs, fs': Fs, live: set<nat>, i: nat)
    requires Inv(fs, live) && Unchanged(fs, fs', live)
    requires SameCounts(fs, fs', i) && RefCount(fs', i) == RefCount(fs, i) + 1 && OpenCount(fs', i) == OpenCount(fs, i)
    ensures View(fs') == Collect(View(fs).(refs := Hold(View(fs).refs, i)))
  {
    hide InvBut, Contents, NameMap, SlotsOf, LiveNow, RefCount, View, Collect, Intact, SameCounts, Tally;
    hide Hold;
    hide FileOf;
    LiveUnique(fs, live);
    ViewAt(fs);
    SameIntact(fs, fs', live);
    HoldRefs(fs, fs', View(fs).refs, View(fs).opens, i);
    FilesStay(fs, fs', live, View(fs).(refs := Hold(View(fs).refs, i)));
  }

  lemma LoadRefines(fs: Fs, live: set<nat>, i: nat)
    requires Inv(fs, live) && i in live
    ensures View(Load(fs, i)) == Collect(View(fs).(refs := Hold(View(fs).refs, i)))
  {
    hide InvBut, Load, SlotsOf, FileOf, RefCount, OpenCount, Loaded, View, Collect, Hold, Files, SameCounts;
    LoadInv(fs, live, i);
    FilesAt(fs, Load(fs, i), live);
    OneMore(fs, Load(fs, i), live, i);
  }

  lemma LookupRefines(fs: Fs, live: set<nat>, name: Name)
    requires Inv(fs, live) && Allowed(fs, DoLookup(name))
    ensures Refines(fs, DoLookup(name))
  {
    hide InvBut, Lookup, SlotsOf, NameMap, FileOf, RefCount, Loaded, View, Collect, SameCounts, Unchanged;
    LookupCorrect(fs, live, name);
    LiveUnique(fs, live);
    ViewAt(fs);
    var (fs', r) := Lookup(fs, name);
    if name in NamesOf(fs) {
      OneMore(fs, fs', live, r.v);
    } else {
      SameIntact(fs, fs', live);
      NothingNew(fs, fs', live);
    }
  }

  lemma CreatRefines(fs: Fs, live: set<nat>, name: Name, excl: bool)
    requires Inv(fs, live) && Allowed(fs, DoCreat(name, excl))
    ensures Refines(fs, DoCreat(name, excl))
  {
    hide InvBut, Creat, SlotsOf, NameMap, FileOf, RefCount, Loaded, View, Collect, SameCounts, SameRefs, Unchanged;
    hide DirFull, Full, Others, Entering, SameData, NewFile;
    CreatCorrect(fs, live, name, excl);
    LiveUnique(fs, live);
    RootLive(fs, live);
    ViewAt(fs);
    var (fs', r) := Creat(fs, name, excl);
    if name !in NamesOf(fs) && r.Ok? {
      NewFileView(fs, fs', live, name, r.v);
    } else if name in NamesOf(fs) && !excl {
      OneMore(fs, fs', live, r.v);
    } else if name !in NamesOf(fs) {
      StaysPut(fs, fs', live);
    } else {
      SameIntact(fs, fs', live);
      NothingNew(fs, fs', live);
    }
  }

  lemma StaysPut(fs: Fs, fs': Fs, live: set<nat>)
    requires Inv(fs, live) && Unchanged(fs, fs', live) && SameRefs(fs, fs')
    ensures View(fs') == Collect(View(fs))
  {
    hide InvBut, SlotsOf, NameMap, FileOf, RefCount, OpenCount, Loaded, View, Collect;
    SameIntact(fs, fs', live);
    NothingNew(fs, fs', live);
  }

  /** A new file, empty, with its name and its holder. */
  lemma NewFileView(fs: Fs, fs': Fs, live: set<nat>, name: Name, i: nat)
    requires Inv(fs, live) && Inv(fs', live + {i}) && i !in live && Others(fs, fs', live, i)
    requires NamesOf(fs') == NamesOf(fs)[name := i] && RefCount(fs', i) == 1 && OpenCount(fs', i) == 0
    requires SameData(FileOf(fs', i), NewFile(TYPE_FILE))
    ensures var m := View(fs);
      View(fs') == Collect(Model(m.names[name := i], m.files[i := Data(0, Zeros(MAXBYTES))], Hold(m.refs, i), m.opens))
  {
    hide InvBut, SlotsOf, NameMap, FileOf, RefCount, OpenCount, Loaded, View, Collect, SameCounts, Tally;
    hide Hold;
    hide LiveNow;
    LiveUnique(fs, live);
    LiveUnique(fs', live + {i});
    RootLive(fs, live);
    ViewAt(fs);
    var m := View(fs);
    assert RefCount(fs, i) == 0 by { InLive(fs, i); }
    NoneOpen(fs, live, i);
    HoldRefs(fs, fs', m.refs, m.opens, i);
    KeptIntact(fs, fs', live);
    ViewIs(fs', Model(m.names[name := i], m.files[i := Data(0, Zeros(MAXBYTES))], Hold(m.refs, i), m.opens));
  }

  lemma LinkRefines(fs: Fs, live: set<nat>, name: Name, i: u32)
    requires Inv(fs, live) && Allowed(fs, DoLink(name, i))
    ensures Refines(fs, DoLink(name, i))
  {
    hide InvBut, Link, SlotsOf, NameMap, FileOf, RefCount, Loaded, View, Collect, SameRefs, Unchanged, DirFull, Full;
    hide Kept;
    LinkCorrect(fs, live, name, i);
    LiveUnique(fs, live);
    ViewAt(fs);
    var (fs', r) := Link(fs, name, i);
    if r.Ok? {
      NamesMove(fs, fs', live, live);
    } else {
      StaysPut(fs, fs', live);
    }
  }

  /** Only the names are new. */
  lemma NamesMove(fs: Fs, fs': Fs, live: set<nat>, live': set<nat>)
    requires Inv(fs, live) && Inv(fs', live') && live' <= live && Kept(fs, fs', live')
    requires SameRefs(fs, fs') || CountsKept(fs, fs')
    ensures View(fs') == Collect(View(fs).(names := NamesOf(fs')))
  {
    hide InvBut, NamesOf, FileOf, RefCount, OpenCount, Loaded, View, Collect, LiveNow, Tally, Intact, Kept;
    LiveUnique(fs, live);
    ViewAt(fs);
    KeptIntact(fs, fs', live');
    assert CountsKept(fs, fs');
    KeptTally(fs, fs', View(fs).refs, View(fs).opens);
    FilesStay(fs, fs', live', View(fs).(names := NamesOf(fs')));
  }

  lemma RemoveRefines(fs: Fs, live: set<nat>, name: Name)
    requires Inv(fs, live) && Allowed(fs, DoRemove(name))
    ensures Refines(fs, DoRemove(name))
  {
    hide InvBut, Remove, SlotsOf, NameMap, FileOf, RefCount, Loaded, View, Collect, Kept;
    RemoveCorrect(fs, live, name);
    LiveUnique(fs, live);
    ViewAt(fs);
    var fs' := Remove(fs, name).0;
    if name in NamesOf(fs) {
      NamesMove(fs, fs', live, LiveWithout(fs, live, name));
    } else {
      assert NamesOf(fs) - {name} == NamesOf(fs);
      SameIntact(fs, fs', live);
      NothingNew(fs, fs', live);
    }
  }

  lemma RenameRefines(fs: Fs, live: set<nat>, n1: Name, n2: Name)
    requires Inv(fs, live) && Allowed(fs, DoRename(n1, n2))
    ensures Refines(fs, DoRename(n1, n2))
  {
    hide InvBut, Rename, SlotsOf, NameMap, FileOf, RefCount, Loaded, View, Collect, Kept, Find, DirFull, Full;
    RenameCorrect(fs, live, n1, n2);
    LiveUnique(fs, live);
    ViewAt(fs);
    var (fs', r) := Rename(fs, n1, n2);
    if r.Ok? {
      NamesMove(fs, fs', live, live);
    } else {
      KeptIntact(fs, fs', live);
      NothingNew(fs, fs', live);
    }
  }

  lemma ReadMeans(fs: Fs, live: set<nat>, i: nat, off: nat, len: nat)
    requires Store(fs, live, {}) && i in live && Loaded(fs, i)
    ensures ReadMay(Contents(fs, i), off, len, ReadIo(fs, i, off, len).bytes)
  {
    hide Store, ReadIo, Backing, Loaded, Cur, Wanted;
    ReadCorrect(fs, live, i, off, len);
  }

  lemma ReadRefines(fs: Fs, live: set<nat>, i: u32, off: nat, len: nat)
    requires Inv(fs, live) && Allowed(fs, DoRead(i, off, len))
    ensures Refines(fs, DoRead(i, off, len))
  {
    hide InvBut, ReadIo, SlotsOf, NameMap, FileOf, RefCount, Loaded, View, Collect, LiveNow, ReadMay;
    LiveUnique(fs, live);
    ViewAt(fs);
    LoadedLive(fs, live, i);
    if i != ROOT {
      InvStore(fs, live);
      ReadMeans(fs, live, i, off, len);
    }
    SameIntact(fs, fs, live);
    NothingNew(fs, fs, live);
  }

  /** One file has new contents. */
  lemma FileMoves(fs: Fs, fs': Fs, live: set<nat>, i: nat)
    requires Inv(fs, live) && Inv(fs', live) && i in live && i != ROOT && NamesOf(fs') == NamesOf(fs)
    requires CountsKept(fs, fs') && forall j :: j in live && j != i ==> FileOf(fs', j) == FileOf(fs, j)
    ensures i in View(fs).files
    ensures View(fs') == Collect(View(fs).(files := View(fs).files[i := Contents(fs', i)]))
  {
    hide InvBut, SlotsOf, NameMap, FileOf, RefCount, View, Collect, LiveNow, Tally;
    LiveUnique(fs, live);
    LiveUnique(fs', live);
    ViewAt(fs);
    KeptTally(fs, fs', View(fs).refs, View(fs).opens);
    ViewIs(fs', View(fs).(files := View(fs).files[i := Contents(fs', i)]));
  }

  lemma WriteRefines(fs: Fs, live: set<nat>, i: u32, off: nat, d: seq<byte>)
    requires Inv(fs, live) && Allowed(fs, DoWrite(i, off, d))
    ensures Refines(fs, DoWrite(i, off, d))
  {
    hide InvBut, WriteIo, SlotsOf, NameMap, FileOf, RefCount, Loaded, View, Collect, LiveNow, Patch;
    LiveUnique(fs, live);
    ViewAt(fs);
    if i != ROOT {
      WriteInv(fs, live, i, off, d);
      WriteRefs(fs, live, i, off, d);
      FileMoves(fs, WriteIo(fs, i, off, d).fs, live, i);
    } else {
      SameIntact(fs, fs, live);
      NothingNew(fs, fs, live);
    }
  }

  lemma TruncateRefines(fs: Fs, live: set<nat>, i: u32, len: nat)
    requires Inv(fs, live) && Allowed(fs, DoTruncate(i, len))
    ensures Refines(fs, DoTruncate(i, len))
  {
    hide InvBut, Truncate, SlotsOf, NameMap, FileOf, RefCount, Loaded, View, Collect, LiveNow, Cut;
    LiveUnique(fs, live);
    ViewAt(fs);
    if i != ROOT {
      TruncateInv(fs, live, i, len);
      TruncateRefs(fs, live, i, len);
      FileMoves(fs, Truncate(fs, i, len), live, i);
    } else {
      SameIntact(fs, fs, live);
      NothingNew(fs, fs, live);
    }
  }

  lemma WriteRefs(fs: Fs, live: set<nat>, i: nat, off: nat, d: seq<byte>)
    requires Inv(fs, live) && Loaded(fs, i) && i in live && off + |d| < 0x8000_0000
    ensures CountsKept(fs, WriteIo(fs, i, off, d).fs)
  {
    hide FileOf, Store, WriteIo, Frame, RefCount, OpenCount, Overlay;
    InvStore(fs, live);
    WriteCorrect(fs, live, i, off, d);
    FrameCounts(fs, WriteIo(fs, i, off, d).fs, live, i);
  }

  lemma TruncateRefs(fs: Fs, live: set<nat>, i: nat, len: nat)
    requires Inv(fs, live) && Loaded(fs, i) && i in live && len < 0x8000_0000
    ensures CountsKept(fs, Truncate(fs, i, len))
  {
    hide FileOf, Store, Truncate, Frame, RefCount, OpenCount, Cut, SlotsCut, FreedExactly, Slot;
    InvStore(fs, live);
    TruncateCorrect(fs, live, i, len);
    FrameCounts(fs, Truncate(fs, i, len), live, i);
  }

  /** The last reference goes when the file is no longer open. */
  lemma DecrefOpens(fs: Fs, live: set<nat>, i: u32)
    requires Inv(fs, live) && Allowed(fs, DoDecref(i))
    ensures OpenCount(Decref(fs, i), i) == OpenCount(fs, i)
  {
    hide InvBut, Decref, SlotsOf, FileOf, LiveAfter, SameCounts, Erased;
    DecrefInv(fs, live, i);
    InvRefs(fs, live, i);
  }

  lemma DecrefRefines(fs: Fs, live: set<nat>, i: u32)
    requires Inv(fs, live) && Allowed(fs, DoDecref(i))
    ensures Refines(fs, DoDecref(i))
  {
    hide InvBut, Decref, SlotsOf, NameMap, FileOf, RefCount, Loaded, View, Collect, LiveNow, SameCounts, Erased;
    hide VnodeOf;
    hide Tally, Drop, Cur;
    DecrefInv(fs, live, i);
    LiveUnique(fs, live);
    ViewAt(fs);
    var fs' := Decref(fs, i);
    var live' := LiveAfter(fs, live, i);
    SameIntact(fs, fs', live');
    DecrefOpens(fs, live, i);
    DropRefs(fs, fs', View(fs).refs, View(fs).opens, i);
    FilesStay(fs, fs', live', View(fs).(refs := Drop(View(fs).refs, i)));
  }

  lemma OpensRefine(fs: Fs, live: set<nat>, i: u32)
    requires Inv(fs, live) && Loaded(fs, i)
    ensures View(AddOpen(fs, i)) == Collect(View(fs).(opens := Hold(View(fs).opens, i)))
    ensures VnodeOf(fs, i).opens > 0 ==> View(DropOpen(fs, i)) == Collect(View(fs).(opens := Drop(View(fs).opens, i)))
  {
    hide InvBut, SlotsOf, FileOf, View, Collect, LiveNow, SyncInode, PutVnode, VnodeOf, Loaded, Hold, Drop;
    var v := VnodeOf(fs, i);
    InvRefs(fs, live, i);
    CountRefines(fs, live, i, v.(opens := v.opens + 1));
    if v.opens > 0 {
      var fs1 := PutVnode(fs, i, v.(opens := v.opens - 1));
      CountRefines(fs, live, i, v.(opens := v.opens - 1));
      CountsInv(fs, live, i, v.(opens := v.opens - 1));
      FsyncRefines(fs1, live, i);
      CollectTwice(View(fs).(opens := Drop(View(fs).opens, i)));
    }
  }

  lemma CollectTwice(m: Model)
    ensures Collect(Collect(m)) == Collect(m)
  {
  }

  /** A vnode with another open count. */
  lemma CountRefines(fs: Fs, live: set<nat>, i: nat, v: Vnode)
    requires Inv(fs, live) && Loaded(fs, i) && v.ino == i && v.refs > 0
    requires v.(opens := VnodeOf(fs, i).opens) == VnodeOf(fs, i)
    ensures v.opens == VnodeOf(fs, i).opens + 1 ==>
      View(PutVnode(fs, i, v)) == Collect(View(fs).(opens := Hold(View(fs).opens, i)))
    ensures v.opens == VnodeOf(fs, i).opens - 1 ==>
      View(PutVnode(fs, i, v)) == Collect(View(fs).(opens := Drop(View(fs).opens, i)))
  {
    hide InvBut, SlotsOf, NameMap, FileOf, View, Collect, LiveNow, PutVnode, VnodeOf, Loaded, Hold, Drop, Tally;
    hide SameCounts;
    CountsInv(fs, live, i, v);
    LiveUnique(fs, live);
    ViewAt(fs);
    var fs' := PutVnode(fs, i, v);
    SameIntact(fs, fs', live);
    var m := View(fs);
    if v.opens == VnodeOf(fs, i).opens + 1 {
      HoldOpens(fs, fs', m.refs, m.opens, i);
      FilesStay(fs, fs', live, m.(opens := Hold(m.opens, i)));
    } else if v.opens == VnodeOf(fs, i).opens - 1 {
      DropOpens(fs, fs', m.refs, m.opens, i);
      FilesStay(fs, fs', live, m.(opens := Drop(m.opens, i)));
    }
  }

  lemma FsyncRefines(fs: Fs, live: set<nat>, i: nat)
    requires Inv(fs, live) && Loaded(fs, i)
    ensures View(SyncInode(fs, i)) == Collect(View(fs))
  {
    hide InvBut, SlotsOf, NameMap, FileOf, View, Collect, LiveNow, SyncInode, VnodeOf, Loaded;
    SyncInodeInv(fs, live, i);
    SameIntact(fs, SyncInode(fs, i), live);
    NothingNew(fs, SyncInode(fs, i), live);
  }

  lemma SyncRefines(fs: Fs, live: set<nat>)
    requires Inv(fs, live)
    ensures View(Sync(fs)) == Collect(View(fs))
  {
    hide InvBut, SlotsOf, NameMap, FileOf, View, Collect, LiveNow, Sync, Settled, RefCount;
    SyncAllCorrect(fs, live);
    TableRefs(fs, Sync(fs));
    SameIntact(fs, Sync(fs), live);
    NothingNew(fs, Sync(fs), live);
  }

  lemma TableRefs(fs: Fs, fs': Fs)
    requires |fs'.vnodes| == |fs.vnodes|
    requires forall k :: 0 <= k < |fs.vnodes| ==> fs'.vnodes[k] == fs.vnodes[k].(dirty := false)
    ensures CountsKept(fs, fs')
  {
    forall j: nat
      ensures RefCount(fs', j) == RefCount(fs, j) && OpenCount(fs', j) == OpenCount(fs, j)
    {
      SameIndex(fs.vnodes, fs'.vnodes, j);
    }
  }

  lemma RemountRefines(fs: Fs, live: set<nat>)
    requires Inv(fs, live)
    ensures View(MountAgain(fs)) == Collect(View(fs))
  {
    hide InvBut, SlotsOf, NameMap, FileOf, View, Collect, LiveNow, Sync, Settled, RefCount, Mount, WordAt;
    SyncAllCorrect(fs, live);
    RemountCorrect(fs, live);
    MountAgainInv(fs, live);
    TableRefs(fs, Sync(fs));
    assert fs.vnodes == [] ==> CountsKept(fs, MountAgain(fs)) by { NoRefs(fs, MountAgain(fs)); }
    SameIntact(fs, MountAgain(fs), live);
    NothingNew(fs, MountAgain(fs), live);
  }

  lemma NoRefs(fs: Fs, fs': Fs)
    ensures fs.vnodes == [] && fs'.vnodes == [] ==> CountsKept(fs, fs')
  {
  }

  /** Every call answers as the model may, and does what the model does. */
  lemma StepRefines(fs: Fs, op: Op)
    requires Sound(fs) && Allowed(fs, op)
    ensures Refines(fs, op)
  {
    hide InvBut, LiveNow, View, Collect, Loaded, Find, VnodeOf;
    hide Load, Lookup, Creat, Link, Remove, Rename, WriteIo, ReadIo, Truncate, Decref, AddOpen, DropOpen, SyncInode;
    hide Sync, MountAgain;
    var live := LiveNow(fs);
    RootLive(fs, live);
    match op {
      case GetRoot => LoadRefines(fs, live, ROOT);
      case DoLookup(name) => LookupRefines(fs, live, name);
      case DoCreat(name, excl) => CreatRefines(fs, live, name, excl);
      case DoLink(name, i) => LinkRefines(fs, live, name, i);
      case DoRemove(name) => RemoveRefines(fs, live, name);
      case DoRename(n1, n2) => RenameRefines(fs, live, n1, n2);
      case DoRead(i, off, len) => ReadRefines(fs, live, i, off, len);
      case DoWrite(i, off, d) => WriteRefines(fs, live, i, off, d);
      case DoTruncate(i, len) => TruncateRefines(fs, live, i, len);
      case Incref(i) => LoadedLive(fs, live, i); LoadRefines(fs, live, i);
      case DoDecref(i) => DecrefRefines(fs, live, i);
      case Incopen(i) => OpensRefine(fs, live, i);
      case Decopen(i) => OpensRefine(fs, live, i);
      case Fsync(i) => FsyncRefines(fs, live, i);
      case DoSync => SyncRefines(fs, live);
      case Remount => RemountRefines(fs, live);
    }
  }

  // ---- Whole runs ----------------------------------------------------------

  /** The model can take these calls with these answers. */
  ghost predicate Admits(m: Model, ops: seq<Op>, answers: seq<Answer>)
    decreases |ops|
  {
    && |ops| == |answers|
    && (ops != [] ==>
          May(m, ops[0], answers[0]) && Admits(Next(m, ops[0], answers[0]), ops[1..], answers[1..]))
  }

  ghost function Follow(m: Model, ops: seq<Op>, answers: seq<Answer>): Model
    requires Admits(m, ops, answers)
    decreases |ops|
  {
    if ops == [] then m else Follow(Next(m, ops[0], answers[0]), ops[1..], answers[1..])
  }

  /** What the code answers, call by call. */
  ghost function AllAnswers(fs: Fs, ops: seq<Op>): seq<Answer>
    requires AllowedRun(fs, ops)
    decreases |ops|
  {
    if ops == [] then [] else [Answers(fs, ops[0])] + AllAnswers(Step(fs, ops[0]), ops[1..])
  }

  lemma {:induction false} RunRefines(fs: Fs, ops: seq<Op>)
    requires Sound(fs) && AllowedRun(fs, ops)
    ensures Admits(View(fs), ops, AllAnswers(fs, ops))
    ensures View(Run(fs, ops)) == Follow(View(fs), ops, AllAnswers(fs, ops))
    decreases |ops|
  {
    hide Inv, Step, Allowed, LiveNow, View, May, Next, Answers;
    if ops != [] {
      StepRefines(fs, ops[0]);
      StepSound(fs, ops[0]);
      RunRefines(Step(fs, ops[0]), ops[1..]);
      assert AllAnswers(fs, ops)[1..] == AllAnswers(Step(fs, ops[0]), ops[1..]);
    }
  }

  /**
   * From a newly made volume, every run of calls is one of the model from empty: the model admits every answer that the
   * code gives, and what the volume then holds is what the model holds.
   */
  lemma EveryRunRefines(disk: seq<Block>, ops: seq<Op>)
    requires Made(disk) && Mount(disk).Ok? && AllowedRun(Mount(disk).v, ops)
    ensures var fs := Mount(disk).v; var answers := AllAnswers(fs, ops); var empty := Model(map[], map[], map[], map[]);
      Admits(empty, ops, answers) && View(Run(fs, ops)) == Follow(empty, ops, answers)
  {
    hide InvBut, Step, Allowed, Mount, BitBlocks, EncodeInode, WordAt, May, Next, Answers, SlotsOf, NameMap;
    var fs := Mount(disk).v;
    MadeInv(disk);
    LiveUnique(fs, {ROOT});
    assert View(fs) == Model(map[], map[], map[], map[]) by { NewView(disk); }
    RunRefines(fs, ops);
  }

  lemma NewView(disk: seq<Block>)
    requires Made(disk) && Mount(disk).Ok?
    ensures View(Mount(disk).v) == Model(map[], map[], map[], map[])
  {
    hide InvBut, BitBlocks, EncodeInode, SlotsOf, NameMap, FileOf, LiveNow;
    MadeInv(disk);
    LiveUnique(Mount(disk).v, {ROOT});
    ViewAt(Mount(disk).v);
    assert View(Mount(disk).v).files.Keys == {};
    assert forall i: nat :: RefCount(Mount(disk).v, i) == 0;
    assert forall i: nat :: OpenCount(Mount(disk).v, i) == 0;
  }

  /**
   * What sync is for: if every file that is held has a name, the disk as it is after a sync, mounted by itself, has
   * every name and every file, and nobody holding or having open any.
   */
  lemma SyncKeepsAll(fs: Fs) returns (m: Fs)
    requires Sound(fs) && NoOrphan(fs, LiveNow(fs))
    ensures Mounts(Sync(fs).disk, m) && Sound(m)
    ensures View(m) == Model(View(fs).names, View(fs).files, map[], map[])
  {
    hide InvBut, SlotsOf, NameMap, FileOf, LiveNow, Sync, NoOrphan, Mount, WordAt, BitmapSize, View, Tally;
    var live := LiveNow(fs);
    RemountCorrect(fs, live);
    m := Mount(Sync(fs).disk).v;
    LiveUnique(m, live);
    ViewAt(fs);
    ViewAt(m);
    NoTally(m, View(m).refs, View(m).opens);
    assert View(m).files.Keys == View(fs).files.Keys;
    forall i | i in View(fs).files
      ensures View(m).files[i] == View(fs).files[i]
    {
    }
    assert View(m).files == View(fs).files;
  }

  lemma NoTally(fs: Fs, refs: map<nat, nat>, opens: map<nat, nat>)
    requires fs.vnodes == [] && Tally(fs, refs, opens)
    ensures refs == map[] && opens == map[]
  {
    forall i: nat
      ensures i !in refs && i !in opens
    {
      assert Of(refs, i) == RefCount(fs, i) == 0 && Of(opens, i) == OpenCount(fs, i) == 0;
    }
  }
}
