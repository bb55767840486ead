/** Directory listings: `Directory::readBytes` (source/filesystem/Directory.cc) packs entries into a byte buffer and
    remembers where it stopped; `readdir` (library/src/io.c) unpacks them one call at a time. */
module DirectoryStream {
  import opened Words
  import opened Numbers

  /** What a listing shows of a resource. */
  datatype Resource = Resource(name: seq<byte>, id: nat, kind: nat, fileSize: nat, fileFlags: nat, dateTime: nat)

  /** The fields fit their types, and the name is a C string that its record can hold. */
  predicate WellFormed(r: Resource) {
    && |r.name| <= 256 && (forall i :: 0 <= i < |r.name| ==> r.name[i] != 0)
    && r.id < UNINT4_RANGE && r.kind < UNINT4_RANGE
    && r.fileSize < UNINT4_RANGE && r.fileFlags < UNINT4_RANGE && r.dateTime < UNINT4_RANGE
  }

  predicate IsFile(kind: nat) {
    kind / 16 % 2 == 1
  }

  /** `Directory_Entry_t`: its size, and the offsets of the fields that end it. The name starts one byte before its end. */
  const ENTRY_SIZE: nat := 24
  const RESERVED: nat := 20
  const NAMELEN: nat := 22
  const NAME: nat := 23

  /** The bytes set aside for a name of `length` characters: 16-bit arithmetic, a multiple of 4, at most 256. */
  function NameField(length: nat): nat {
    var namelen := (length + 1) % 0x1_0000;
    var namelen2 := (namelen + 3) / 4 * 4 % 0x1_0000;
    if namelen2 > 256 then 256 else namelen2
  }

  function RecordSize(r: Resource): nat {
    ENTRY_SIZE + NameField(|r.name|)
  }

  lemma RecordSizeBounds(r: Resource)
    requires WellFormed(r)
    ensures NAME + |r.name| < RecordSize(r) && ENTRY_SIZE + 4 <= RecordSize(r) <= 280
  {
    var n := |r.name| + 1;
    assert n % 0x1_0000 == n && (n + 3) / 4 * 4 % 0x1_0000 == (n + 3) / 4 * 4;
  }

  /** The size of the field fits the byte that stores it exactly for names of up to 251 characters; up to 256 it is 256. */
  lemma NameFieldExact(length: nat)
    ensures length + 1 <= NameField(length) < 256 <==> length <= 251
    ensures 251 < length <= 256 ==> NameField(length) == 256
  {
  }

  function Le4(n: nat): seq<byte> {
    [n % 256, n / 0x100 % 256, n / 0x1_0000 % 256, n / 0x100_0000 % 256]
  }

  function FromLe4(b: seq<byte>, at: nat): nat
    requires at + 4 <= |b|
  {
    var b0: nat, b1: nat, b2: nat, b3: nat := b[at], b[at + 1], b[at + 2], b[at + 3];
    b0 + 0x100 * b1 + 0x1_0000 * b2 + 0x100_0000 * b3
  }

  function FromLe2(b: seq<byte>, at: nat): nat
    requires at + 2 <= |b|
  {
    var b0: nat, b1: nat := b[at], b[at + 1];
    b0 + 0x100 * b1
  }

  lemma Le4RoundTrip(b: seq<byte>, at: nat, n: nat)
    requires n < UNINT4_RANGE && at + 4 <= |b|
    requires b[at] == Le4(n)[0] && b[at + 1] == Le4(n)[1] && b[at + 2] == Le4(n)[2] && b[at + 3] == Le4(n)[3]
    ensures FromLe4(b, at) == n
  {
    assert n / 0x1_0000 == n / 0x100 / 0x100 && n / 0x100_0000 == n / 0x1_0000 / 0x100;
  }

  /** The bytes of `n` stand at `k`. */
  predicate Holds(h: seq<byte>, k: nat, n: nat) {
    k + 4 <= |h| && h[k] == Le4(n)[0] && h[k + 1] == Le4(n)[1] && h[k + 2] == Le4(n)[2] && h[k + 3] == Le4(n)[3]
  }

  function Fields(flags: nat, size: nat, date: nat, id: nat, kind: nat, namelen: byte): (h: seq<byte>)
    ensures |h| == NAME && h[RESERVED] == h[RESERVED + 1] == 0 && h[NAMELEN] == namelen
    ensures Holds(h, 0, flags) && Holds(h, 4, size) && Holds(h, 8, date) && Holds(h, 12, id) && Holds(h, 16, kind)
  {
    Le4(flags) + Le4(size) + Le4(date) + Le4(id) + Le4(kind) + [0, 0] + [namelen]
  }

  /** The fixed fields of a record. */
  function Header(r: Resource): (h: seq<byte>)
    ensures |h| == NAME
  {
    var e := EntryOf(r);
    Fields(e.flags, e.fileSize, e.dateTime, r.id, r.kind, NameField(|r.name|) % 256)
  }

  // ---------- reading a record back ----------

  /** What the caller of `readdir` finds behind the pointer. */
  datatype Entry = Entry(flags: nat, fileSize: nat, dateTime: nat, id: nat, kind: nat, name: seq<byte>)

  function EntryOf(r: Resource): Entry {
    if IsFile(r.kind) then Entry(r.fileFlags, r.fileSize, r.dateTime, r.id, r.kind, r.name)
    else Entry(0, 0, 0, r.id, r.kind, r.name)
  }

  /** A C string ends before its first zero byte. */
  function CString(b: seq<byte>, at: nat): seq<byte>
    decreases |b| - at
  {
    if at >= |b| || b[at] == 0 then [] else [b[at]] + CString(b, at + 1)
  }

  function Decode(b: seq<byte>, at: nat): Entry
    requires at + ENTRY_SIZE <= |b|
  {
    Entry(FromLe4(b, at), FromLe4(b, at + 4), FromLe4(b, at + 8), FromLe4(b, at + 12), FromLe4(b, at + 16), CString(b, at + NAME))
  }

  lemma {:induction false} CStringReads(b: seq<byte>, at: nat, name: seq<byte>)
    requires at + |name| < |b| && b[at + |name|] == 0
    requires forall i :: 0 <= i < |name| ==> name[i] != 0 && b[at + i] == name[i]
    ensures CString(b, at) == name
    decreases |name|
  {
    if name != [] {
      assert b[at + 0] == name[0];
      forall i | 0 <= i < |name| - 1
        ensures name[1..][i] != 0 && b[at + 1 + i] == name[1..][i]
      {
        assert b[at + (i + 1)] == name[i + 1];
      }
      CStringReads(b, at + 1, name[1..]);
    }
  }

  /** How far `readdir` goes from one record to the next. */
  function Step(b: seq<byte>, at: nat): (n: nat)
    requires at + ENTRY_SIZE <= |b|
  {
    ENTRY_SIZE + b[at + NAMELEN]
  }

  /** One record stands at `at`: it is not marked as the end, it reads as `e`, and its name ends inside it. */
  predicate Reads(b: seq<byte>, at: nat, e: Entry) {
    && at + ENTRY_SIZE <= |b| && NAME + |e.name| < Step(b, at) && ENTRY_SIZE < Step(b, at) && at + Step(b, at) <= |b|
    && b[at + RESERVED] == 0 && b[at + RESERVED + 1] == 0
    && Decode(b, at) == e
  }

  /** The bytes that make up a record; those after the name's terminator are whatever the buffer held. */
  predicate Record(b: seq<byte>, at: nat, r: Resource) {
    && NAME + |r.name| < RecordSize(r) && at + RecordSize(r) <= |b|
    && (forall i :: 0 <= i < NAME ==> b[at + i] == Header(r)[i])
    && (forall i :: 0 <= i < |r.name| ==> b[at + NAME + i] == r.name[i])
    && b[at + NAME + |r.name|] == 0
  }

  lemma FieldRoundTrip(b: seq<byte>, at: nat, h: seq<byte>, k: nat, n: nat)
    requires n < UNINT4_RANGE && Holds(h, k, n) && at + |h| <= |b|
    requires forall i :: 0 <= i < |h| ==> b[at + i] == h[i]
    ensures FromLe4(b, at + k) == n
  {
    assert b[at + k] == h[k] && b[at + (k + 1)] == h[k + 1] && b[at + (k + 2)] == h[k + 2] && b[at + (k + 3)] == h[k + 3];
    Le4RoundTrip(b, at + k, n);
  }

  lemma HeaderRoundTrip(b: seq<byte>, at: nat, r: Resource)
    requires WellFormed(r) && Record(b, at, r)
    ensures b[at + RESERVED] == b[at + RESERVED + 1] == 0 && b[at + NAMELEN] == NameField(|r.name|) % 256
    ensures FromLe4(b, at + 12) == r.id && FromLe4(b, at + 16) == r.kind
    ensures FromLe4(b, at) == EntryOf(r).flags && FromLe4(b, at + 4) == EntryOf(r).fileSize && FromLe4(b, at + 8) == EntryOf(r).dateTime
  {
    var h, e := Header(r), EntryOf(r);
    assert b[at + RESERVED] == h[RESERVED] && b[at + RESERVED + 1] == h[RESERVED + 1] && b[at + NAMELEN] == h[NAMELEN];
    FieldRoundTrip(b, at, h, 0, e.flags);
    FieldRoundTrip(b, at, h, 4, e.fileSize);
    FieldRoundTrip(b, at, h, 8, e.dateTime);
    FieldRoundTrip(b, at, h, 12, r.id);
    FieldRoundTrip(b, at, h, 16, r.kind);
  }

  /** Reading a record back gives the entry it was made from. */
  lemma RecordRoundTrip(b: seq<byte>, at: nat, r: Resource)
    requires WellFormed(r) && Record(b, at, r)
    ensures at + ENTRY_SIZE <= |b| && Decode(b, at) == EntryOf(r)
  {
    HeaderRoundTrip(b, at, r);
    CStringReads(b, at + NAME, r.name);
  }

  /** The kind has the bit that marks files. */
  predicate HasFileBit(kind: nat)
    requires kind < UNINT4_RANGE
  {
    And(Word(kind), 0x10) != 0
  }

  lemma FileBit(kind: nat)
    requires kind < UNINT4_RANGE
    ensures IsFile(kind) <==> HasFileBit(kind)
  {
    OnNumber(Word(kind), 4);
    OnBit(Word(kind), 4);
    assert Bit(4) == 0x10 && Power(4) == 16;
  }

  /** An entry shows a resource: what it has in common with all of them, and of files alone their flags, size and date. */
  predicate ShowsFields(e: Entry, r: Resource)
    requires r.kind < UNINT4_RANGE
  {
    && e.id == r.id && e.kind == r.kind && e.name == r.name
    && (if HasFileBit(r.kind) then e.flags == r.fileFlags && e.fileSize == r.fileSize && e.dateTime == r.dateTime
        else e.flags == e.fileSize == e.dateTime == 0)
  }

  lemma EntryShows(r: Resource)
    requires WellFormed(r)
    ensures ShowsFields(EntryOf(r), r)
  {
    FileBit(r.kind);
  }

  /** A record field by field, as `Directory_Entry_t` lays it out: flags, size, date, id and kind, and 16 bits of zero. */
  lemma RecordFields(b: seq<byte>, at: nat, r: Resource)
    requires WellFormed(r) && Record(b, at, r)
    ensures at + NAME < |b|
    ensures var file := HasFileBit(r.kind);
            && FromLe4(b, at) == (if file then r.fileFlags else 0)
            && FromLe4(b, at + 4) == (if file then r.fileSize else 0)
            && FromLe4(b, at + 8) == (if file then r.dateTime else 0)
    ensures FromLe4(b, at + 12) == r.id && FromLe4(b, at + 16) == r.kind && FromLe2(b, at + 20) == 0
  {
    HeaderRoundTrip(b, at, r);
    EntryShows(r);
  }

  /** Behind these a byte with the size set aside for the name, and the name with its terminator. */
  lemma RecordName(b: seq<byte>, at: nat, r: Resource)
    requires WellFormed(r) && Record(b, at, r)
    ensures at + 23 + |r.name| < |b| && b[at + 23 + |r.name|] == 0
    ensures forall i :: 0 <= i < |r.name| ==> b[at + 23 + i] == r.name[i]
    ensures |r.name| <= 251 ==> |r.name| + 1 <= b[at + 22] < |r.name| + 5 && b[at + 22] % 4 == 0
  {
    HeaderRoundTrip(b, at, r);
    NameFieldExact(|r.name|);
  }

  /** What is read back of a record shows the resource. */
  lemma RecordShows(b: seq<byte>, at: nat, r: Resource)
    requires WellFormed(r) && Record(b, at, r)
    ensures at + ENTRY_SIZE <= |b| && ShowsFields(Decode(b, at), r)
  {
    RecordRoundTrip(b, at, r);
    EntryShows(r);
  }

  /** The step from a record leads to its end exactly when its name has at most 251 characters. From a longer one it leads to
      the second character of the name. */
  lemma StepExact(b: seq<byte>, at: nat, r: Resource)
    requires WellFormed(r) && Record(b, at, r)
    ensures Step(b, at) == RecordSize(r) <==> |r.name| <= 251
    ensures |r.name| > 251 ==> at + Step(b, at) == at + NAME + 1 < at + NAME + |r.name| < at + RecordSize(r)
  {
    HeaderRoundTrip(b, at, r);
    NameFieldExact(|r.name|);
  }

  /** Behind a long name's record, `readdir` goes on inside the name unless two of its characters look like the end mark. */
  lemma LongNameLeft(b: seq<byte>, at: nat, remaining: nat, r: Resource)
    requires WellFormed(r) && Record(b, at, r) && |r.name| > 251 && RecordSize(r) <= remaining && at + remaining <= |b|
    ensures Left(b, at, remaining) == 0 <==> r.name[21] == r.name[22] == 0xff
  {
    StepExact(b, at, r);
    RecordSizeBounds(r);
    NameFieldExact(|r.name|);
    NameAt(b, at, r, 21);
    NameAt(b, at, r, 22);
  }

  lemma ShortReads(b: seq<byte>, at: nat, r: Resource)
    requires WellFormed(r) && Record(b, at, r) && |r.name| <= 251
    ensures Reads(b, at, EntryOf(r)) && Step(b, at) == RecordSize(r)
  {
    RecordRoundTrip(b, at, r);
    StepExact(b, at, r);
    HeaderRoundTrip(b, at, r);
    RecordSizeBounds(r);
  }

  // ---------- streams of records ----------

  /** From `at` to `end` stand records that read as `es`. */
  predicate Stream(b: seq<byte>, at: nat, end: nat, es: seq<Entry>)
    decreases |es|
  {
    if es == [] then at == end <= |b|
    else Reads(b, at, es[0]) && at + Step(b, at) <= end && Stream(b, at + Step(b, at), end, es[1..])
  }

  lemma {:induction false} StreamBounds(b: seq<byte>, at: nat, end: nat, es: seq<Entry>)
    requires Stream(b, at, end, es)
    ensures at <= end <= |b| && (at == end <==> es == []) && (es != [] ==> at + ENTRY_SIZE < end)
    decreases |es|
  {
    if es != [] {
      StreamBounds(b, at + Step(b, at), end, es[1..]);
    }
  }

  /** From `at` to `end` stand the records of these resources. */
  predicate Packed(b: seq<byte>, at: nat, end: nat, rs: seq<Resource>)
    decreases |rs|
  {
    if rs == [] then at == end <= |b|
    else Record(b, at, rs[0]) && at + RecordSize(rs[0]) <= end && Packed(b, at + RecordSize(rs[0]), end, rs[1..])
  }

  lemma {:induction false} PackedBounds(b: seq<byte>, at: nat, end: nat, rs: seq<Resource>)
    requires Packed(b, at, end, rs)
    ensures at <= end <= |b| && (at == end <==> rs == []) && (rs != [] ==> at + ENTRY_SIZE < end)
    decreases |rs|
  {
    if rs != [] {
      PackedBounds(b, at + RecordSize(rs[0]), end, rs[1..]);
    }
  }

  /** The two buffers have the same bytes from `at` to `end`. */
  predicate SameBytes(b: seq<byte>, c: seq<byte>, at: nat, end: nat) {
    end <= |b| && end <= |c| && forall i :: at <= i < end ==> c[i] == b[i]
  }

  lemma RecordSame(b: seq<byte>, c: seq<byte>, at: nat, end: nat, r: Resource)
    requires Record(b, at, r) && SameBytes(b, c, at, end) && at + RecordSize(r) <= end
    ensures Record(c, at, r) && SameBytes(b, c, at + RecordSize(r), end)
  {
  }

  lemma {:induction false} PackedSame(b: seq<byte>, at: nat, end: nat, rs: seq<Resource>, c: seq<byte>)
    requires Packed(b, at, end, rs) && SameBytes(b, c, at, end)
    ensures Packed(c, at, end, rs)
    decreases |rs|
  {
    if rs != [] {
      RecordSame(b, c, at, end, rs[0]);
      PackedSame(b, at + RecordSize(rs[0]), end, rs[1..], c);
    }
  }

  lemma {:induction false} PackedAppend(b: seq<byte>, at: nat, end: nat, rs: seq<Resource>, r: Resource)
    requires Packed(b, at, end, rs) && Record(b, end, r)
    ensures Packed(b, at, end + RecordSize(r), rs + [r])
    decreases |rs|
  {
    if rs == [] {
      assert (rs + [r])[1..] == [];
    } else {
      PackedAppend(b, at + RecordSize(rs[0]), end, rs[1..], r);
      assert (rs + [r])[1..] == rs[1..] + [r];
    }
  }

  predicate Short(rs: seq<Resource>) {
    forall i :: 0 <= i < |rs| ==> WellFormed(rs[i]) && |rs[i].name| <= 251
  }

  function EntriesOf(rs: seq<Resource>): (es: seq<Entry>)
    ensures |es| == |rs| && forall i :: 0 <= i < |rs| ==> es[i] == EntryOf(rs[i])
  {
    seq(|rs|, i requires 0 <= i < |rs| => EntryOf(rs[i]))
  }

  /** Records with short names are read one after the other. */
  lemma {:induction false} PackedReads(b: seq<byte>, at: nat, end: nat, rs: seq<Resource>)
    requires Packed(b, at, end, rs) && Short(rs)
    ensures Stream(b, at, end, EntriesOf(rs))
    decreases |rs|
  {
    if rs != [] {
      ShortReads(b, at, rs[0]);
      PackedReads(b, at + RecordSize(rs[0]), end, rs[1..]);
      assert EntriesOf(rs)[1..] == EntriesOf(rs[1..]);
    }
  }

  /** The entries of a directory from one place on. */
  predicate Listed(content: seq<Resource>, from: nat, es: seq<Entry>) {
    from + |es| <= |content| && forall k :: 0 <= k < |es| ==> es[k] == EntryOf(content[from + k])
  }

  lemma ListedFirst(content: seq<Resource>, from: nat, es: seq<Entry>)
    requires Listed(content, from, es) && es != []
    ensures es[0] == EntryOf(content[from]) && Listed(content, from + 1, es[1..])
  {
    assert es[0] == EntryOf(content[from + 0]);
    forall k | 0 <= k < |es[1..]|
      ensures es[1..][k] == EntryOf(content[from + 1 + k])
    {
      assert es[k + 1] == EntryOf(content[from + (k + 1)]);
    }
  }

  lemma ListedSlice(content: seq<Resource>, from: nat, to: nat)
    requires from <= to <= |content|
    ensures Listed(content, from, EntriesOf(content[from..to]))
  {
  }

  // ---------- the directory ----------

  /** The bytes that the padding behind `used` bytes of records is stored to: its first place is counted once from the start
      of the buffer and once more from the pointer that was moved already. */
  predicate Padded(used: nat, length: nat, k: nat) {
    2 * used <= k < used + length - 1
  }

  /** The padding stays inside the buffer exactly when no record was packed before it, or it is empty. */
  lemma PaddingInside(b: seq<byte>, used: nat, rs: seq<Resource>, length: nat)
    requires Packed(b, 0, used, rs) && used < length
    ensures (forall k: nat :: Padded(used, length, k) ==> k < length) <==> rs == [] || used + 1 == length
  {
    PackedBounds(b, 0, used, rs);
    if rs != [] && used + 1 < length {
      assert Padded(used, length, used + length - 2);
    }
  }

  lemma NextSlice(content: seq<Resource>, from: nat, i: nat)
    requires from <= i < |content|
    ensures content[from..i + 1] == content[from..i] + [content[i]]
  {
  }

  /** The records of `rs` fill the buffer up to `used`; behind them it is as it was. */
  predicate Filled(b: seq<byte>, was: seq<byte>, used: nat, rs: seq<Resource>) {
    |b| == |was| && Packed(b, 0, used, rs) && forall k :: used <= k < |b| ==> b[k] == was[k]
  }

  /** The same, but for the padding. */
  predicate FilledTo(b: seq<byte>, was: seq<byte>, used: nat, rs: seq<Resource>, length: nat) {
    |b| == |was| && Packed(b, 0, used, rs) && forall k :: used <= k < |b| && !Padded(used, length, k) ==> b[k] == was[k]
  }

  lemma PaddedFilled(b: seq<byte>, was: seq<byte>, used: nat, rs: seq<Resource>, length: nat, c: seq<byte>)
    requires Filled(b, was, used, rs) && |c| == |b| && forall k :: 0 <= k < |b| && !Padded(used, length, k) ==> c[k] == b[k]
    ensures FilledTo(c, was, used, rs, length)
  {
    PackedBounds(b, 0, used, rs);
    PackedSame(b, 0, used, rs, c);
  }

  lemma AppendedFilled(b: seq<byte>, was: seq<byte>, used: nat, rs: seq<Resource>, r: Resource, c: seq<byte>)
    requires Filled(b, was, used, rs) && |c| == |b| && Record(c, used, r)
    requires forall i :: 0 <= i < |b| && !(used <= i < used + RecordSize(r)) ==> c[i] == b[i]
    ensures Filled(c, was, used + RecordSize(r), rs + [r])
  {
    PackedBounds(b, 0, used, rs);
    PackedSame(b, 0, used, rs, c);
    PackedAppend(c, 0, used, rs, r);
  }

  class Directory {
    var dir_content: seq<Resource>
    var position: nat

    constructor (content: seq<Resource>)
      ensures dir_content == content && position == 0
    {
      dir_content := content;
      position := 0;
    }

    predicate Valid()
      reads this
    {
      position <= |dir_content| && forall i :: 0 <= i < |dir_content| ==> WellFormed(dir_content[i])
    }

    /** Packs as many whole records as leave at least one byte of `length` free, starting with the first entry not yet read.
        When one does not fit, the padding follows; the part of it that would go behind `bytes` is not modelled. */
    method ReadBytes(bytes: array<byte>, length: nat) returns (used: nat, ghost rs: seq<Resource>)
      requires Valid() && length <= bytes.Length
      modifies this`position, bytes
      ensures old(position) <= position <= |dir_content| && used <= length
      ensures rs == dir_content[old(position)..position] && Packed(bytes[..], 0, used, rs)
      ensures length > 0 && position < |dir_content| ==> used + RecordSize(dir_content[position]) >= length
      ensures length > 0 ==> used < length
      ensures forall k :: used <= k < bytes.Length && !(length > 0 && position < |dir_content| && Padded(used, length, k)) ==>
                bytes[k] == old(bytes[k])
    {
      rs := [];
      if length < 1 {
        return length, rs;
      }
      var i := 0;
      while i < |dir_content| && i < position
        invariant i <= position
      {
        i := i + 1;
      }
      used, rs := Pack(bytes, length, i);
    }

    /** Its second loop, from the first entry not yet read. */
    method Pack(bytes: array<byte>, length: nat, first: nat) returns (used: nat, ghost rs: seq<Resource>)
      requires Valid() && 0 < length <= bytes.Length && first == position
      modifies this`position, bytes
      ensures first <= position <= |dir_content| && used < length && rs == dir_content[first..position]
      ensures if position < |dir_content|
              then used + RecordSize(dir_content[position]) >= length && FilledTo(bytes[..], old(bytes[..]), used, rs, length)
              else Filled(bytes[..], old(bytes[..]), used, rs)
    {
      ghost var was := bytes[..];
      var pos: nat, i := 0, first;
      rs := [];
      while i < |dir_content|
        invariant first <= position == i <= |dir_content| && pos < length
        invariant rs == dir_content[first..i] && Filled(bytes[..], was, pos, rs)
      {
        var r := dir_content[i];
        if pos + RecordSize(r) >= length {
          Pad(bytes, pos, length, rs, was);
          return pos, rs;
        }
        NextSlice(dir_content, first, i);
        i := i + 1;
        position := position + 1;
        AppendRecord(bytes, pos, r, rs, was);
        rs := rs + [r];
        pos := pos + RecordSize(r);
      }
      used := pos;
    }

    /** The padding, as far as it lies in the buffer. What it stores is left open: `memset` of the kernel repeats the byte 0xff
        only for short or unaligned ranges, and else stores whole words of that value, with zeros at the end. */
    static method Pad(bytes: array<byte>, pos: nat, length: nat, ghost rs: seq<Resource>, ghost was: seq<byte>)
      requires pos < length && Filled(bytes[..], was, pos, rs)
      modifies bytes
      ensures FilledTo(bytes[..], was, pos, rs, length)
    {
      ghost var before := bytes[..];
      for i := 0 to bytes.Length
        invariant forall k :: 0 <= k < bytes.Length && !Padded(pos, length, k) ==> bytes[k] == before[k]
      {
        if Padded(pos, length, i) {
          bytes[i] := *;
        }
      }
      PaddedFilled(before, was, pos, rs, length, bytes[..]);
    }

    /** One turn of the loop: the next record goes behind those already written. */
    static method AppendRecord(bytes: array<byte>, pos: nat, r: Resource, ghost rs: seq<Resource>, ghost was: seq<byte>)
      requires WellFormed(r) && pos + RecordSize(r) <= bytes.Length && Filled(bytes[..], was, pos, rs)
      modifies bytes
      ensures Filled(bytes[..], was, pos + RecordSize(r), rs + [r])
    {
      ghost var before := bytes[..];
      WriteRecord(bytes, pos, r);
      AppendedFilled(before, was, pos, rs, r, bytes[..]);
    }

    static method WriteRecord(bytes: array<byte>, pos: nat, r: Resource)
      requires WellFormed(r) && pos + RecordSize(r) <= bytes.Length
      modifies bytes
      ensures Record(bytes[..], pos, r)
      ensures forall i :: 0 <= i < bytes.Length && !(pos <= i < pos + RecordSize(r)) ==> bytes[i] == old(bytes[i])
    {
      RecordSizeBounds(r);
      var header := Header(r);
      forall i | 0 <= i < NAME {
        bytes[pos + i] := header[i];
      }
      forall i | 0 <= i < |r.name| {
        bytes[pos + NAME + i] := r.name[i];
      }
      bytes[pos + NAME + |r.name|] := 0;
    }
  }

  // ---------- readdir ----------

  datatype Pointer = Null | At(offset: nat)

  const BUFFER_SIZE: nat := 512

  /** What is left of `remaining` bytes behind the record at `pos`; nothing, if no further record can follow. */
  function Left(b: seq<byte>, pos: nat, remaining: nat): (rest: nat)
    requires ENTRY_SIZE <= remaining && pos + remaining <= |b|
    ensures rest == 0 || (ENTRY_SIZE <= rest && pos + Step(b, pos) + rest == pos + remaining)
  {
    var step := Step(b, pos);
    if remaining < step + ENTRY_SIZE || FromLe2(b, pos + step + RESERVED) == 0xffff then 0 else remaining - step
  }

  /** The `remaining` bytes from `pos` on are the stream of the entries from one place of the directory up to another. */
  predicate Ahead(b: seq<byte>, pos: nat, remaining: nat, es: seq<Entry>, content: seq<Resource>, from: nat, to: nat) {
    Stream(b, pos, pos + remaining, es) && from + |es| == to && Listed(content, from, es)
  }

  /** The step leads from one entry to the next, and nothing is left behind the last. */
  lemma AheadNext(b: seq<byte>, pos: nat, remaining: nat, es: seq<Entry>, content: seq<Resource>, from: nat, to: nat)
    requires Ahead(b, pos, remaining, es, content, from, to) && ENTRY_SIZE <= remaining && pos + remaining <= |b|
    ensures es != [] && from < |content| && Decode(b, pos) == EntryOf(content[from])
    ensures Ahead(b, pos + Step(b, pos), Left(b, pos, remaining), es[1..], content, from + 1, to)
  {
    StreamBounds(b, pos, pos + remaining, es);
    StreamBounds(b, pos + Step(b, pos), pos + remaining, es[1..]);
    ListedFirst(content, from, es);
  }

  lemma AheadPacked(b: seq<byte>, used: nat, content: seq<Resource>, from: nat, to: nat)
    requires from <= to <= |content| && Packed(b, 0, used, content[from..to]) && Short(content)
    ensures Ahead(b, 0, used, EntriesOf(content[from..to]), content, from, to)
  {
    PackedReads(b, 0, used, content[from..to]);
    ListedSlice(content, from, to);
  }

  /** The static variables of `readdir`, and how many entries it has handed out since the directory's start. */
  class Reader {
    const buffer: array<byte>
    var pos: nat
    var remainingBytes: nat
    ghost var handedOut: nat
    ghost var unread: seq<Entry>

    constructor ()
      ensures fresh(buffer) && buffer.Length == BUFFER_SIZE && pos == remainingBytes == 0 && handedOut == 0 && unread == []
    {
      buffer := new byte[BUFFER_SIZE](_ => 0);
      pos := 0;
      remainingBytes := 0;
      handedOut := 0;
      unread := [];
    }

    ghost predicate InBuffer()
      reads this
    {
      buffer.Length == BUFFER_SIZE && (remainingBytes == 0 || (ENTRY_SIZE <= remainingBytes && pos + remainingBytes <= BUFFER_SIZE))
    }

    /** The unread part of the buffer is the stream of the entries read from the directory and not yet handed out. */
    ghost predicate Valid(dir: Directory)
      reads this, buffer, dir
    {
      && InBuffer() && dir.Valid() && Short(dir.dir_content)
      && Ahead(buffer[..], pos, remainingBytes, unread, dir.dir_content, handedOut, dir.position)
    }

    /** `readdir`, on whatever the buffer holds: the pointer to the place reached in it, which then moves on by one step. An
        empty buffer is filled again first; null means that the directory has no more entries, and starts it over. */
    method ReadDir(dir: Directory) returns (ret: Pointer, ghost used: nat, ghost rs: seq<Resource>)
      requires InBuffer() && dir.Valid()
      modifies this`pos, this`remainingBytes, buffer, dir`position
      ensures InBuffer() && dir.Valid() && dir.dir_content == old(dir.dir_content)
      ensures old(remainingBytes) > 0 ==>
                && ret == At(old(pos)) && buffer[..] == old(buffer[..]) && dir.position == old(dir.position)
                && pos == old(pos) + Step(buffer[..], old(pos))
                && remainingBytes == Left(buffer[..], old(pos), old(remainingBytes))
      ensures old(remainingBytes) == 0 && old(dir.position) == |dir.dir_content| ==>
                ret == Null && dir.position == 0 && pos == remainingBytes == 0
      ensures old(remainingBytes) == 0 && old(dir.position) < |dir.dir_content| ==>
                && ret == At(0) && old(dir.position) < dir.position && rs == dir.dir_content[old(dir.position)..dir.position]
                && pos == Step(buffer[..], 0)
                && ENTRY_SIZE < used <= BUFFER_SIZE && Packed(buffer[..], 0, used, rs)
                && remainingBytes == Left(buffer[..], 0, used)
    {
      used, rs := 0, [];
      if remainingBytes == 0 {
        var more;
        more, used, rs := Refill(dir);
        if !more {
          return Null, used, rs;
        }
      }
      ret := At(pos);
      var step := ENTRY_SIZE + buffer[pos + NAMELEN];
      var rest: int := remainingBytes - step;
      pos := pos + step;
      remainingBytes := if rest < ENTRY_SIZE || FromLe2(buffer[..], pos + RESERVED) == 0xffff then 0 else rest;
    }

    /** Its part for an empty buffer: fills it again, or starts the directory over. */
    method Refill(dir: Directory) returns (more: bool, used: nat, ghost rs: seq<Resource>)
      requires InBuffer() && dir.Valid() && remainingBytes == 0
      modifies this`pos, this`remainingBytes, buffer, dir`position
      ensures InBuffer() && dir.Valid() && dir.dir_content == old(dir.dir_content)
      ensures more == (old(dir.position) < |dir.dir_content|) && pos == 0
      ensures if more then
                && old(dir.position) < dir.position && rs == dir.dir_content[old(dir.position)..dir.position]
                && ENTRY_SIZE < used == remainingBytes <= BUFFER_SIZE && Packed(buffer[..], 0, used, rs)
              else dir.position == remainingBytes == 0
    {
      used, rs := dir.ReadBytes(buffer, BUFFER_SIZE);
      PackedBounds(buffer[..], 0, used, rs);
      assert |rs| == dir.position - old(dir.position);
      pos := 0;
      more := used > ENTRY_SIZE;
      if more {
        remainingBytes := used;
      } else {
        AllRead(dir, used);
        dir.position := 0;
        remainingBytes := 0;
      }
    }

    /** On a directory of short names, each call hands out the next entry, or null after the last one. */
    method ReadNext(dir: Directory) returns (ret: Pointer)
      requires Valid(dir)
      modifies this, buffer, dir`position
      ensures Valid(dir)
      ensures dir.dir_content == old(dir.dir_content)
      ensures if old(handedOut) < |dir.dir_content| then
                && ret.At? && handedOut == old(handedOut) + 1 && ret.offset + ENTRY_SIZE <= BUFFER_SIZE
                && Decode(buffer[..], ret.offset) == EntryOf(dir.dir_content[old(handedOut)])
              else ret == Null && handedOut == 0
    {
      StreamBounds(buffer[..], pos, pos + remainingBytes, unread);
      if remainingBytes > 0 {
        ret := ReadBuffered(dir);
      } else {
        ret := ReadRefilled(dir);
      }
    }

    method ReadBuffered(dir: Directory) returns (ret: Pointer)
      requires Valid(dir) && remainingBytes > 0
      modifies this, buffer, dir`position
      ensures Valid(dir) && dir.dir_content == old(dir.dir_content)
      ensures ret.At? && handedOut == old(handedOut) + 1 <= |dir.dir_content| && ret.offset + ENTRY_SIZE <= BUFFER_SIZE
      ensures Decode(buffer[..], ret.offset) == EntryOf(dir.dir_content[old(handedOut)])
    {
      AheadNext(buffer[..], pos, remainingBytes, unread, dir.dir_content, handedOut, dir.position);
      unread := unread[1..];
      handedOut := handedOut + 1;
      ghost var used, rs;
      ret, used, rs := ReadDir(dir);
    }

    method ReadRefilled(dir: Directory) returns (ret: Pointer)
      requires Valid(dir) && remainingBytes == 0 && unread == []
      modifies this, buffer, dir`position
      ensures Valid(dir) && dir.dir_content == old(dir.dir_content)
      ensures if old(handedOut) < |dir.dir_content| then
                && ret.At? && handedOut == old(handedOut) + 1 && ret.offset + ENTRY_SIZE <= BUFFER_SIZE
                && Decode(buffer[..], ret.offset) == EntryOf(dir.dir_content[old(handedOut)])
              else ret == Null && handedOut == 0
    {
      ghost var start := dir.position;
      ghost var used, rs;
      ret, used, rs := ReadDir(dir);
      handedOut := 0;
      if ret.At? {
        handedOut := start + 1;
        unread := EntriesOf(rs)[1..];
        AheadPacked(buffer[..], used, dir.dir_content, start, dir.position);
        AheadNext(buffer[..], 0, used, EntriesOf(rs), dir.dir_content, start, dir.position);
      }
    }

    /** A read that returns nothing is at the end of the directory, as some entry always fits an empty buffer. */
    lemma AllRead(dir: Directory, readb: nat)
      requires dir.Valid() && readb == 0
      requires dir.position < |dir.dir_content| ==> readb + RecordSize(dir.dir_content[dir.position]) >= BUFFER_SIZE
      ensures dir.position == |dir.dir_content|
    {
      if dir.position < |dir.dir_content| {
        RecordSizeBounds(dir.dir_content[dir.position]);
      }
    }
  }

  // ---------- whole runs ----------

  /** What a caller sees of one call. */
  datatype Seen = End | Shown(entry: Entry)

  /** Which entry the n-th call shows; the one behind the last stands for the end. */
  function Place(n: nat, size: nat): (k: nat)
    ensures k <= size
  {
    n % (size + 1)
  }

  /** The n-th call on an unchanged directory, counting from one that starts over: every entry in order, then the end, and so on. */
  function Expected(content: seq<Resource>, n: nat): Seen {
    Next(content, Place(n, |content|))
  }

  lemma NextCall(n: nat, size: nat)
    ensures Place(0, size) == 0
    ensures Place(n + 1, size) == if Place(n, size) == size then 0 else Place(n, size) + 1
  {
    var m := size + 1;
    var q, k := n / m, n % m;
    assert n + 1 == q * m + (k + 1);
    if k == size {
      assert n + 1 == (q + 1) * m + 0;
      Remainder(n + 1, q + 1, 0, m);
    } else {
      Remainder(n + 1, q, k + 1, m);
    }
  }

  /** What a call shows after `n` entries were handed out. */
  function Next(content: seq<Resource>, n: nat): Seen {
    if n < |content| then Shown(EntryOf(content[n])) else End
  }

  /** One call, and a look at the entry behind the pointer. */
  method Look(dir: Directory, reader: Reader) returns (seen: Seen)
    requires reader.Valid(dir)
    modifies reader, reader.buffer, dir`position
    ensures reader.Valid(dir) && dir.dir_content == old(dir.dir_content) && seen == Next(dir.dir_content, old(reader.handedOut))
    ensures reader.handedOut == if old(reader.handedOut) < |dir.dir_content| then old(reader.handedOut) + 1 else 0
  {
    var direntry := reader.ReadNext(dir);
    seen := match direntry
      case Null => End
      case At(offset) => Shown(Decode(reader.buffer[..], offset));
  }

  predicate AsExpected(content: seq<Resource>, seen: seq<Seen>) {
    forall i :: 0 <= i < |seen| ==> seen[i] == Expected(content, i)
  }

  lemma AsExpectedMore(content: seq<Resource>, seen: seq<Seen>, next: Seen)
    requires AsExpected(content, seen) && next == Expected(content, |seen|)
    ensures AsExpected(content, seen + [next])
  {
  }

  /** Any number of calls in a row. */
  method ReadAll(dir: Directory, reader: Reader, calls: nat) returns (seen: seq<Seen>)
    requires reader.Valid(dir) && reader.handedOut == 0
    modifies reader, reader.buffer, dir`position
    ensures |seen| == calls && forall i :: 0 <= i < calls ==> seen[i] == Expected(dir.dir_content, i)
  {
    ghost var content := dir.dir_content;
    seen := [];
    NextCall(0, |content|);
    while |seen| < calls
      invariant |seen| <= calls && reader.Valid(dir) && dir.dir_content == content
      invariant reader.handedOut == Place(|seen|, |content|) && AsExpected(content, seen)
    {
      NextCall(|seen|, |content|);
      var next := Look(dir, reader);
      AsExpectedMore(content, seen, next);
      seen := seen + [next];
    }
  }

  /** The entries before the one that `direntry` shows were listed, and `handedOut` counts up to it. */
  predicate Listing(content: seq<Resource>, entries: seq<Entry>, direntry: Seen, handedOut: nat) {
    && |entries| <= |content| && entries == EntriesOf(content)[..|entries|]
    && direntry == Next(content, |entries|)
    && handedOut == if |entries| < |content| then |entries| + 1 else 0
  }

  lemma ListingNext(content: seq<Resource>, entries: seq<Entry>, direntry: Seen, handedOut: nat)
    requires Listing(content, entries, direntry, handedOut) && direntry != End
    ensures |entries| < |content|
    ensures Listing(content, entries + [direntry.entry], Next(content, handedOut), if handedOut < |content| then handedOut + 1 else 0)
  {
  }

  lemma ListingEnds(content: seq<Resource>, entries: seq<Entry>, handedOut: nat)
    requires Listing(content, entries, End, handedOut)
    ensures handedOut == 0 && entries == EntriesOf(content)
  {
  }

  /** The loop of the shell commands, up to the first null. */
  method List(dir: Directory, reader: Reader) returns (entries: seq<Entry>)
    requires reader.Valid(dir) && reader.handedOut == 0
    modifies reader, reader.buffer, dir`position
    ensures reader.Valid(dir) && reader.handedOut == 0 && entries == EntriesOf(dir.dir_content)
  {
    ghost var content := dir.dir_content;
    entries := [];
    var direntry := Look(dir, reader);
    while direntry != End
      invariant reader.Valid(dir) && dir.dir_content == content
      invariant Listing(content, entries, direntry, reader.handedOut)
      decreases |content| - |entries|
    {
      ListingNext(content, entries, direntry, reader.handedOut);
      entries := entries + [direntry.entry];
      direntry := Look(dir, reader);
    }
    ListingEnds(content, entries, reader.handedOut);
  }

  /** A fresh reader lists any directory of short names that stands at its start. */
  method ListFresh(dir: Directory) returns (entries: seq<Entry>)
    requires dir.Valid() && Short(dir.dir_content) && dir.position == 0
    modifies dir`position
    ensures dir.Valid() && dir.dir_content == old(dir.dir_content) && entries == EntriesOf(dir.dir_content)
    ensures forall i :: 0 <= i < |entries| ==> ShowsFields(entries[i], dir.dir_content[i])
  {
    var reader := new Reader();
    entries := List(dir, reader);
    forall i | 0 <= i < |entries|
      ensures ShowsFields(entries[i], dir.dir_content[i])
    {
      EntryShows(dir.dir_content[i]);
    }
  }

  /** A resource whose name is 252 times the letter a. */
  const LONG_NAMED: Resource := Resource(seq(252, _ => 97), 7, 1, 0, 0, 0)

  lemma LongNameStep(b: seq<byte>, used: nat)
    requires |b| == BUFFER_SIZE && Packed(b, 0, used, [LONG_NAMED])
    ensures used == 280 && Step(b, 0) == NAME + 1 && Left(b, 0, used) == 256 && Decode(b, NAME + 1).id == 0x6161_6161
  {
    var r := LONG_NAMED;
    assert [r][1..] == [];
    StepExact(b, 0, r);
    NameFieldExact(252);
    NameAt(b, 0, r, 13);
    NameAt(b, 0, r, 14);
    NameAt(b, 0, r, 15);
    NameAt(b, 0, r, 16);
    NameAt(b, 0, r, 21);
  }

  lemma NameAt(b: seq<byte>, at: nat, r: Resource, i: nat)
    requires Record(b, at, r) && i < |r.name|
    ensures b[at + NAME + i] == r.name[i]
  {
  }

  /** On a directory with just that resource, the second call hands out an entry that is not in the directory: the name's
      second character is where it starts. */
  method LongNameMisread() returns (dir: Directory, reader: Reader, second: Pointer)
    ensures fresh(dir) && fresh(reader) && dir.Valid() && dir.dir_content == [LONG_NAMED]
    ensures reader.buffer.Length == BUFFER_SIZE && second == At(NAME + 1)
    ensures Decode(reader.buffer[..], NAME + 1).id == 0x6161_6161 && LONG_NAMED.id == 7
  {
    dir := new Directory([LONG_NAMED]);
    reader := new Reader();
    ghost var used, rs;
    var first;
    first, used, rs := reader.ReadDir(dir);
    assert rs == [LONG_NAMED];
    LongNameStep(reader.buffer[..], used);
    second, used, rs := reader.ReadDir(dir);
  }
}
