/** Reading a directory: a cursor over blocks of variable-length records, refilled by getdents. */
module DirOps {
  import opened Apr
  import opened Bytes

  const BUF_SIZE: nat := 4096
  /** Offsets of the record length and of the name within a record. */
  const RECLEN_AT: nat := 16
  const NAME_AT: nat := 18

  const DOT: byte := 46

  // ---- records ----------------------------------------------------------------------------------------

  /** A directory entry as the kernel lays it out: 16 bytes of numbers, the length, the name, padding. */
  datatype Entry = Entry(header: seq<byte>, name: seq<byte>, padding: seq<byte>)

  ghost predicate WellFormed(e: Entry) {
    |e.header| == RECLEN_AT && 0 !in e.name && RecLen(e) <= 0xffff
  }

  function RecLen(e: Entry): nat { NAME_AT + |e.name| + 1 + |e.padding| }

  ghost function Layout(e: Entry): seq<byte>
    requires WellFormed(e)
  {
    e.header + [(RecLen(e) % 256) as byte, (RecLen(e) / 256) as byte] + e.name + [0] + e.padding
  }

  ghost predicate AllWellFormed(entries: seq<Entry>) {
    forall i :: 0 <= i < |entries| ==> WellFormed(entries[i])
  }

  /** A block: records end to end. */
  ghost function Block(entries: seq<Entry>): seq<byte>
    requires AllWellFormed(entries)
  {
    if entries == [] then [] else Layout(entries[0]) + Block(entries[1..])
  }

  /** The length field of the record at `at`. */
  function RecLenAt(data: seq<byte>, at: nat): nat
    requires at + NAME_AT <= |data|
  {
    data[at + RECLEN_AT] as nat + 256 * data[at + RECLEN_AT + 1] as nat
  }

  /** The bytes from `at` up to the first NUL. */
  function CText(data: seq<byte>, at: nat): seq<byte>
    requires at <= |data|
    decreases |data| - at
  {
    if at == |data| || data[at] == 0 then [] else [data[at]] + CText(data, at + 1)
  }

  /** A record at the front of `data[at..]` is found there with its length and its name. */
  lemma RecordAt(data: seq<byte>, at: nat, e: Entry, rest: seq<byte>)
    requires WellFormed(e) && at <= |data| && data[at..] == Layout(e) + rest
    ensures at + RecLen(e) <= |data| && RecLenAt(data, at) == RecLen(e) && data[at + RecLen(e)..] == rest
    ensures CText(data, at + NAME_AT) == e.name
  {
    var tail := data[at..];
    var front := e.header + [(RecLen(e) % 256) as byte, (RecLen(e) / 256) as byte];
    assert Layout(e) == front + e.name + [0] + e.padding;
    assert |Layout(e)| == RecLen(e) && |front| == NAME_AT;
    assert data[at + RECLEN_AT] == tail[RECLEN_AT] == front[RECLEN_AT];
    assert data[at + RECLEN_AT + 1] == tail[RECLEN_AT + 1] == front[RECLEN_AT + 1];
    assert data[at + RecLen(e)..] == tail[RecLen(e)..] == rest;
    forall i | 0 <= i <= |e.name| ensures data[at + NAME_AT + i] == (if i < |e.name| then e.name[i] else 0) {
      assert data[at + NAME_AT + i] == tail[NAME_AT + i] == Layout(e)[NAME_AT + i];
    }
    TextAt(data, at + NAME_AT, e.name);
  }

  /** A record of 288 bytes with the name "ab": length at 16, low byte first, and the name at 18. */
  lemma RecordExample(numbers: seq<byte>, rest: seq<byte>)
    requires |numbers| == 16
    ensures var data := numbers + [32, 1, 97, 98, 0] + rest; RecLenAt(data, 0) == 288 && CText(data, 18) == [97, 98]
  {
    var data := numbers + [32, 1, 97, 98, 0] + rest;
    assert data[16] == 32 && data[17] == 1 && data[18] == 97 && data[19] == 98 && data[20] == 0;
    TextAt(data, 18, [97, 98]);
  }

  lemma NextRecord(data: seq<byte>, at: nat, entries: seq<Entry>)
    requires AllWellFormed(entries) && at <= |data| && data[at..] == Block(entries)
    ensures Block(entries) == [] <==> entries == []
    ensures entries != [] ==>
      && at + NAME_AT <= |data| && at + RecLenAt(data, at) <= |data|
      && data[at + RecLenAt(data, at)..] == Block(entries[1..])
      && CText(data, at + NAME_AT) == entries[0].name
  {
    if entries != [] { RecordAt(data, at, entries[0], Block(entries[1..])); }
  }

  lemma {:induction false} TextAt(data: seq<byte>, at: nat, name: seq<byte>)
    requires 0 !in name && at + |name| < |data| && data[at + |name|] == 0
    requires forall i :: 0 <= i < |name| ==> data[at + i] == name[i]
    ensures CText(data, at) == name
    decreases |name|
  {
    if name != [] {
      forall i | 0 <= i < |name[1..]| ensures data[at + 1 + i] == name[1..][i] {
        assert data[at + (i + 1)] == name[i + 1];
      }
      TextAt(data, at + 1, name[1..]);
      assert name == [name[0]] + name[1..] && data[at] == name[0];
    }
  }

  // ---- the kernel side --------------------------------------------------------------------------------

  /** The blocks getdents has still to hand out; after them it answers `last`, 0 or an error. */
  class Source {
    ghost var pending: seq<seq<Entry>>
    var bytes: seq<seq<byte>>
    var last: int

    ghost predicate Valid()
      reads this
    {
      && last <= 0 && |bytes| == |pending|
      && forall i :: 0 <= i < |pending| ==>
           pending[i] != [] && AllWellFormed(pending[i]) && bytes[i] == Block(pending[i]) && |bytes[i]| <= BUF_SIZE
    }

    method Getdents(data: array<byte>) returns (n: int)
      requires Valid() && data.Length == BUF_SIZE
      modifies this`pending, this`bytes, data
      ensures Valid()
      ensures old(pending) == [] ==> n == last && pending == [] && data[..] == old(data[..])
      ensures old(pending) != [] ==> pending == old(pending)[1..] && 0 < n <= BUF_SIZE
      ensures old(pending) != [] ==> data[..n] == Block(old(pending)[0])
    {
      if bytes == [] { return last; }
      var block := bytes[0];
      EmptyBlockIff(pending[0]);
      forall i | 0 <= i < |block| { data[i] := block[i]; }
      bytes := bytes[1..];
      pending := pending[1..];
      n := |block|;
      assert data[..n] == block;
    }
  }

  ghost function Concat(blocks: seq<seq<Entry>>): seq<Entry> {
    if blocks == [] then [] else blocks[0] + Concat(blocks[1..])
  }

  // ---- the cursor -------------------------------------------------------------------------------------

  /** `left` are the entries of the block in `data` from `offset` on. */
  class Dir {
    const source: Source
    const data: array<byte>
    var offset: nat
    var size: nat
    ghost var left: seq<Entry>

    ghost predicate Valid()
      reads this, data, source
    {
      && source.Valid() && data.Length == BUF_SIZE && offset <= size <= BUF_SIZE
      && AllWellFormed(left) && data[..size][offset..] == Block(left)
    }

    /** All entries still to come. */
    ghost function Remaining(): seq<Entry>
      reads this, source
    {
      left + Concat(source.pending)
    }

    constructor (source: Source)
      requires source.Valid()
      ensures Valid() && this.source == source && fresh(data) && Remaining() == Concat(source.pending)
    {
      this.source := source;
      data := new byte[BUF_SIZE];
      offset, size, left := 0, 0, [];
    }

    /** Fetches the next block into the emptied buffer. */
    method Refill() returns (bytes: int)
      requires Valid() && left == []
      modifies this`offset, this`size, this`left, data, source`pending, source`bytes
      ensures Valid() && Remaining() == old(Remaining())
      ensures bytes <= 0 <==> old(source.pending) == []
      ensures bytes <= 0 ==> Remaining() == []
      ensures bytes > 0 ==> left != []
    {
      bytes := source.Getdents(data);
      if bytes <= 0 {
        assert data[..size][offset..] == old(data[..size][offset..]);
        return;
      }
      size := bytes;
      offset := 0;
      left := old(source.pending)[0];
      assert data[..size][0..] == data[..size];
    }

    /** The next record, at `de` in the block; none once the blocks are used up. */
    method Readdir() returns (found: bool, de: nat)
      requires Valid()
      modifies this`offset, this`size, this`left, data, source`pending, source`bytes
      ensures Valid() && (found <==> old(Remaining()) != [])
      ensures found ==> Remaining() == old(Remaining())[1..]
      ensures found ==> de + NAME_AT <= size && CText(data[..size], de + NAME_AT) == old(Remaining())[0].name
      ensures !found ==> Remaining() == []
    {
      hide Block, CText, RecLenAt, Concat;
      NextRecord(data[..size], offset, left);
      if offset >= size {
        var bytes := Refill();
        if bytes <= 0 { return false, 0; }
        NextRecord(data[..size], offset, left);
      }
      de := offset;
      ghost var rest := left[1..];
      assert Remaining() == [left[0]] + (rest + Concat(source.pending));
      offset := offset + RecLenAt(data[..size], de);
      left := rest;
      found := true;
    }
  }

  lemma EmptyBlockIff(entries: seq<Entry>)
    requires AllWellFormed(entries)
    ensures Block(entries) == [] <==> entries == []
  {
  }

  // ---- listing ------------------------------------------------------------------------------------------

  /** What `stat` says of a name, where it succeeds; the rest of the listing line is made of it. */
  type Stat = seq<byte> -> Option<int>

  /** The name read and the attributes on hand: those of a failed `stat` are left as they were. */
  datatype FInfo = FInfo(name: seq<byte>, attr: int)

  /** One entry: APR_INCOMPLETE where `stat` failed, APR_ENOENT at the end. */
  method DirRead(dir: Dir, finfo: FInfo, stat: Stat) returns (rc: int, finfo': FInfo)
    requires dir.Valid()
    modifies dir`offset, dir`size, dir`left, dir.data, dir.source`pending, dir.source`bytes
    ensures dir.Valid() && rc in {APR_SUCCESS, APR_INCOMPLETE, APR_ENOENT}
    ensures rc == APR_ENOENT <==> old(dir.Remaining()) == []
    ensures rc == APR_ENOENT ==> dir.Remaining() == []
    ensures rc != APR_ENOENT ==> dir.Remaining() == old(dir.Remaining())[1..]
    ensures rc != APR_ENOENT ==> finfo' == ReadInfo(old(dir.Remaining())[0].name, finfo.attr, stat)
    ensures rc != APR_ENOENT ==> (rc == APR_INCOMPLETE <==> stat(finfo'.name).None?)
  {
    var found, de := dir.Readdir();
    finfo' := finfo;
    if !found { return APR_ENOENT, finfo'; }
    var name := CText(dir.data[..dir.size], de + NAME_AT);
    match stat(name)
    case Some(value) =>
      rc, finfo' := APR_SUCCESS, FInfo(name, value);
    case None =>
      rc, finfo' := APR_INCOMPLETE, FInfo(name, finfo.attr);
  }

  function ReadInfo(name: seq<byte>, attr: int, stat: Stat): FInfo {
    match stat(name)
    case Some(value) => FInfo(name, value)
    case None => FInfo(name, attr)
  }

  predicate Shown(name: seq<byte>, all: bool) {
    all || name == [] || name[0] != DOT
  }

  const CRLF: seq<byte> := [CR, LF]

  /** One line per entry that is shown, in the order of the entries. */
  function Listing(names: seq<seq<byte>>, attr: int, all: bool, stat: Stat, line: FInfo -> seq<byte>): seq<byte> {
    if names == [] then []
    else
      var info := ReadInfo(names[0], attr, stat);
      LineFor(info, all, line) + Listing(names[1..], info.attr, all, stat, line)
  }

  function Names(entries: seq<Entry>): seq<seq<byte>> {
    if entries == [] then [] else [entries[0].name] + Names(entries[1..])
  }

  /** What the listing gets for one entry. */
  function LineFor(info: FInfo, all: bool, line: FInfo -> seq<byte>): seq<byte> {
    if Shown(info.name, all) then line(info) + CRLF else []
  }

  lemma ListingStep(dest: seq<byte>, entries: seq<Entry>, attr: int, all: bool, stat: Stat, line: FInfo -> seq<byte>)
    requires entries != []
    ensures var info := ReadInfo(entries[0].name, attr, stat);
      dest + Listing(Names(entries), attr, all, stat, line)
      == (dest + LineFor(info, all, line)) + Listing(Names(entries[1..]), info.attr, all, stat, line)
  {
    assert Names(entries)[1..] == Names(entries[1..]);
  }

  lemma ListingEnd(dest: seq<byte>, attr: int, all: bool, stat: Stat, line: FInfo -> seq<byte>)
    ensures dest + Listing(Names([]), attr, all, stat, line) == dest
  {
  }

  /** The loop; `line` formats an entry, `attr` is what the attributes hold before the first `stat`. */
  method ListDir(dir: Dir, all: bool, attr: int, stat: Stat, line: FInfo -> seq<byte>) returns (dest: seq<byte>)
    requires dir.Valid()
    modifies dir`offset, dir`size, dir`left, dir.data, dir.source`pending, dir.source`bytes
    ensures dir.Valid() && dir.Remaining() == []
    ensures dest == Listing(Names(old(dir.Remaining())), attr, all, stat, line)
  {
    hide Dir.Valid, Dir.Remaining, Listing, Names, ReadInfo;
    dest := [];
    ghost var entries, before := dir.Remaining(), attr;
    ghost var whole := Listing(Names(entries), attr, all, stat, line);
    var rc, finfo := DirRead(dir, FInfo([], attr), stat);
    while rc == APR_SUCCESS || rc == APR_INCOMPLETE
      invariant dir.Valid()
      invariant rc in {APR_SUCCESS, APR_INCOMPLETE, APR_ENOENT}
      invariant rc == APR_ENOENT <==> entries == []
      invariant entries == [] ==> dir.Remaining() == []
      invariant entries != [] ==> dir.Remaining() == entries[1..] && finfo == ReadInfo(entries[0].name, before, stat)
      invariant dest + Listing(Names(entries), before, all, stat, line) == whole
      decreases |entries|
    {
      ListingStep(dest, entries, before, all, stat, line);
      if !(!all && finfo.name != [] && finfo.name[0] == DOT) {
        dest := dest + (line(finfo) + CRLF);
      } else {
        assert dest + [] == dest;
      }
      before := finfo.attr;
      entries := entries[1..];
      rc, finfo := DirRead(dir, finfo, stat);
    }
    ListingEnd(dest, before, all, stat, line);
  }

  // ---- what is listed -------------------------------------------------------------------------------------

  /** The attributes on hand at the last of `names`: those of the last one for which `stat` succeeded. */
  function LastKnown(names: seq<seq<byte>>, attr: int, stat: Stat): int {
    if names == [] then attr
    else
      match stat(names[|names| - 1])
      case Some(value) => value
      case None => LastKnown(names[..|names| - 1], attr, stat)
  }

  /**
   * One more entry adds its line, made of its name and the attributes last known, and CR LF behind
   * it; without the -a flag a name that starts with a dot (46) adds nothing.
   */
  lemma {:induction false} ListingSnoc(names: seq<seq<byte>>, n: seq<byte>, attr: int, all: bool, stat: Stat,
                                    line: FInfo -> seq<byte>)
    ensures Listing(names + [n], attr, all, stat, line)
         == Listing(names, attr, all, stat, line)
            + if !all && n != [] && n[0] == 46 then []
              else line(FInfo(n, LastKnown(names + [n], attr, stat))) + [13, 10]
  {
    assert (names + [n])[..|names|] == names;
    if names == [] {
      assert names + [n] == [n] && [n][1..] == [];
      var info := ReadInfo(n, attr, stat);
      assert Listing([], info.attr, all, stat, line) == [] && LastKnown([], attr, stat) == attr;
      assert LineFor(info, all, line) + [] == LineFor(info, all, line) == [] + LineFor(info, all, line);
    } else {
      var info := ReadInfo(names[0], attr, stat);
      ListingSnoc(names[1..], n, info.attr, all, stat, line);
      LastKnownBehind(names + [n], attr, stat);
      assert (names + [n])[1..] == names[1..] + [n];
      assert forall a: seq<byte>, b, c :: a + (b + c) == (a + b) + c;
    }
  }

  lemma {:induction false} LastKnownBehind(names: seq<seq<byte>>, attr: int, stat: Stat)
    requires names != []
    ensures LastKnown(names, attr, stat) == LastKnown(names[1..], ReadInfo(names[0], attr, stat).attr, stat)
    decreases |names|
  {
    if |names| == 1 {
      assert names[..0] == [] && names[1..] == [];
    } else {
      var front := names[..|names| - 1];
      assert names[1..][..|names| - 2] == front[1..] && names[1..][|names| - 2] == names[|names| - 1];
      LastKnownBehind(front, attr, stat);
    }
  }

  /** The names that do not start with a dot, in their order. */
  function Undotted(names: seq<seq<byte>>): seq<seq<byte>> {
    if names == [] then []
    else (if names[0] != [] && names[0][0] == 46 then [] else [names[0]]) + Undotted(names[1..])
  }

  /** Where `stat` succeeds, leaving out -a is listing the other names with it. */
  lemma {:induction false} WithoutAll(names: seq<seq<byte>>, a: int, b: int, stat: Stat, line: FInfo -> seq<byte>)
    requires forall i :: 0 <= i < |names| ==> stat(names[i]).Some?
    ensures Listing(names, a, false, stat, line) == Listing(Undotted(names), b, true, stat, line)
  {
    if names != [] {
      var n := names[0];
      var v := stat(n).value;
      assert forall i :: 0 <= i < |names[1..]| ==> names[1..][i] == names[i + 1];
      if n != [] && n[0] == 46 {
        WithoutAll(names[1..], v, b, stat, line);
        assert Undotted(names) == Undotted(names[1..]);
        assert [] + Listing(names[1..], v, false, stat, line) == Listing(names[1..], v, false, stat, line);
      } else {
        WithoutAll(names[1..], v, v, stat, line);
        assert Undotted(names) == [n] + Undotted(names[1..]);
        assert Undotted(names)[1..] == Undotted(names[1..]);
      }
    }
  }

  /** The number of lines is the number of entries that are shown. */
  function ShownCount(names: seq<seq<byte>>, all: bool): nat {
    if names == [] then 0 else (if Shown(names[0], all) then 1 else 0) + ShownCount(names[1..], all)
  }

  /** An entry is left out exactly for a dot in front of its name and no -a flag. */
  lemma HiddenIff(n: seq<byte>, all: bool)
    ensures ShownCount([n], all) == 0 <==> !all && n != [] && n[0] == 46
  {
    assert ShownCount([n][1..], all) == 0;
  }

  function LineCount(s: seq<byte>): nat {
    if s == [] then 0 else (if s[0] == LF then 1 else 0) + LineCount(s[1..])
  }

  /** No line that is listed has a line feed of its own. */
  predicate Plain(names: seq<seq<byte>>, attr: int, all: bool, stat: Stat, line: FInfo -> seq<byte>) {
    names == [] ||
    var info := ReadInfo(names[0], attr, stat);
    && (Shown(names[0], all) ==> LF !in line(info))
    && Plain(names[1..], info.attr, all, stat, line)
  }

  /**
   * Whether or not `stat` succeeds, every entry that is shown has a line of its own; there are no
   * further lines exactly when no line listed breaks.
   */
  lemma {:induction false} OneLineEachIff(names: seq<seq<byte>>, attr: int, all: bool, stat: Stat,
                                       line: FInfo -> seq<byte>)
    ensures LineCount(Listing(names, attr, all, stat, line)) >= ShownCount(names, all)
    ensures LineCount(Listing(names, attr, all, stat, line)) == ShownCount(names, all) <==>
      Plain(names, attr, all, stat, line)
  {
    if names != [] {
      var info := ReadInfo(names[0], attr, stat);
      var rest := Listing(names[1..], info.attr, all, stat, line);
      OneLineEachIff(names[1..], info.attr, all, stat, line);
      if Shown(names[0], all) {
        LineCountConcat(line(info) + CRLF, rest);
        LineCountConcat(line(info), CRLF);
        NoLinesIff(line(info));
        assert CRLF[1..] == [LF] && LineCount([LF]) == 1;
      } else {
        assert [] + rest == rest;
      }
    }
  }

  lemma {:induction false} LineCountConcat(a: seq<byte>, b: seq<byte>)
    ensures LineCount(a + b) == LineCount(a) + LineCount(b)
  {
    if a == [] {
      assert a + b == b;
    } else {
      LineCountConcat(a[1..], b);
      assert (a + b)[1..] == a[1..] + b;
    }
  }

  lemma {:induction false} NoLinesIff(s: seq<byte>)
    ensures LineCount(s) == 0 <==> LF !in s
  {
    if s != [] {
      NoLinesIff(s[1..]);
      assert s == [s[0]] + s[1..];
    }
  }

  // ---- the lines of the daemon ----------------------------------------------------------------------------

  /** What `snprintf` leaves in the line buffer: at most 1023 bytes. */
  function Cut(s: seq<byte>): seq<byte> { s[..Min(|s|, 1023)] }

  const SLASH: byte := 47

  /** A line: what is printed in front of the name, the name, and a slash if `slash` says so of the entry. */
  function EntryLine(front: int -> seq<byte>, slash: int -> bool): FInfo -> seq<byte> {
    (info: FInfo) => Cut(front(info.attr) + info.name + if slash(info.attr) then [SLASH] else [])
  }

  /** A short listing has nothing in front of the name. */
  function NoFront(attr: int): seq<byte> { [] }

  /** A line is never longer than 1023 bytes; one that fits is whole, with a '/' (47) behind a directory. */
  lemma EntryLineLaw(front: int -> seq<byte>, slash: int -> bool, info: FInfo)
    ensures var line := EntryLine(front, slash)(info);
      && |line| <= 1023
      && (|front(info.attr)| + |info.name| < 1023 ==>
            line == front(info.attr) + info.name + if slash(info.attr) then [47] else [])
  {
  }

  /** A directory "d" and a file "f" in a short listing. */
  lemma ShortListingExample(stat: Stat, isDir: int -> bool, dir: int, file: int)
    requires isDir(dir) && !isDir(file) && stat([100]) == Some(dir) && stat([102]) == Some(file)
    ensures Listing([[100], [102]], 0, false, stat, EntryLine(NoFront, isDir)) == [100, 47, 13, 10, 102, 13, 10]
  {
    var line := EntryLine(NoFront, isDir);
    ListingSnoc([], [100], 0, false, stat, line);
    ListingSnoc([[100]], [102], 0, false, stat, line);
    EntryLineLaw(NoFront, isDir, FInfo([100], dir));
    EntryLineLaw(NoFront, isDir, FInfo([102], file));
    assert [] + [[100]] == [[100 as byte]] && [[100]] + [[102]] == [[100 as byte], [102]];
  }

  /** Such a line breaks exactly where the part of the name that fits does. */
  lemma EntryLineBreaksIff(front: int -> seq<byte>, slash: int -> bool, info: FInfo)
    requires LF !in front(info.attr)
    ensures LF in EntryLine(front, slash)(info) <==>
      LF in info.name[..Max(0, Min(|info.name|, 1023 - |front(info.attr)|))]
  {
    var f, name := front(info.attr), info.name;
    var kept := name[..Max(0, Min(|name|, 1023 - |f|))];
    var line := EntryLine(front, slash)(info);
    if LF in kept {
      var i :| 0 <= i < |kept| && kept[i] == LF;
      assert line[|f| + i] == LF;
    }
    if LF in line {
      var i :| 0 <= i < |line| && line[i] == LF;
      assert |f| <= i;
      assert i < |f| + |name| && kept[i - |f|] == LF;
    }
  }

  /**
   * A short listing, of names and a slash behind directories, has one line for each entry shown
   * exactly when no name shown has an LF among its first 1023 bytes.
   */
  lemma ShortListingIff(names: seq<seq<byte>>, attr: int, all: bool, stat: Stat, isDir: int -> bool)
    ensures LineCount(Listing(names, attr, all, stat, EntryLine(NoFront, isDir))) == ShownCount(names, all) <==>
      forall i :: 0 <= i < |names| && Shown(names[i], all) ==> LF !in Cut(names[i])
  {
    OneLineEachIff(names, attr, all, stat, EntryLine(NoFront, isDir));
    PlainShortIff(names, attr, all, stat, isDir);
  }

  lemma {:induction false} PlainShortIff(names: seq<seq<byte>>, attr: int, all: bool, stat: Stat,
                                      isDir: int -> bool)
    ensures Plain(names, attr, all, stat, EntryLine(NoFront, isDir)) <==>
      forall i :: 0 <= i < |names| && Shown(names[i], all) ==> LF !in Cut(names[i])
  {
    if names != [] {
      var info := ReadInfo(names[0], attr, stat);
      EntryLineBreaksIff(NoFront, isDir, info);
      PlainShortIff(names[1..], info.attr, all, stat, isDir);
      assert forall i :: 0 < i < |names| ==> names[i] == names[1..][i - 1];
    }
  }

  /** A file whose name is 'a', LF, 'b' is listed on two lines. */
  lemma BrokenLineExample(attr: int, all: bool, stat: Stat, isDir: int -> bool)
    requires !isDir(ReadInfo([97, LF, 98], attr, stat).attr)
    ensures var names := [[97, LF, 98]];
      && Listing(names, attr, all, stat, EntryLine(NoFront, isDir)) == [97, LF, 98, CR, LF]
      && ShownCount(names, all) == 1 && LineCount([97, LF, 98, CR, LF]) == 2
  {
    var name: seq<byte> := [97, LF, 98];
    var info := ReadInfo(name, attr, stat);
    assert EntryLine(NoFront, isDir)(info) == name;
    var s: seq<byte> := [97, LF] + [98, CR, LF];
    LineCountConcat([97, LF], [98, CR, LF]);
    LineCountConcat([97], [LF]);
    LineCountConcat([98, CR], [LF]);
    assert [97, LF] == [97 as byte] + [LF] && [98, CR, LF] == [98, CR] + [LF] && s == [97, LF, 98, CR, LF];
    assert LineCount([LF]) == 1;
    NoLinesIff([97]);
    NoLinesIff([98, CR]);
    assert Listing([name][1..], info.attr, all, stat, EntryLine(NoFront, isDir)) == [];
  }
}
