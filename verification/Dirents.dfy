/** Directory records: host_getdents64 of src/host/posix/dir.c, and a reader that walks them. */
module Dirents {
  import opened Align
  import opened Bytes
  import opened Wrappers

  const NAME_MAX := 255
  const NAME_AT := 19
  /** sizeof(struct Dirent): 19 bytes of header and 256 of name, padded to a multiple of 8. */
  const DIRENT_SIZE := 280

  datatype Entry = Entry(ino: U64, dtype: byte, name: seq<byte>)

  predicate Proper(e: Entry) {
    NoNul(e.name)
  }

  function RecLen(e: Entry): (n: U64) {
    Ceilp(8 + 8 + 2 + 1 + |Cut(e.name, NAME_MAX)| + 1, 8)
  }

  lemma RecLenFacts(e: Entry)
    ensures RecLen(e) % 8 == 0
    ensures NAME_AT + |Cut(e.name, NAME_MAX)| < RecLen(e) <= 280
    ensures RecLen(e) < NAME_AT + |Cut(e.name, NAME_MAX)| + 9
  {
    assert Pow2(3) == 8;
    var len := NAME_AT + |Cut(e.name, NAME_MAX)| + 1;
    PowerOfTwoRounding(len, 8);
    CeilpIsLeast(len, 8, DIRENT_SIZE);
  }

  /** The bytes of one record: inode, offset -1, length, type, name, and zero fill. */
  function Record(e: Entry): (r: seq<byte>)
    ensures |r| == RecLen(e)
  {
    RecLenFacts(e);
    var name := Cut(e.name, NAME_MAX);
    Header(e) + name + ZeroBytes(RecLen(e) - NAME_AT - |name|)
  }

  function Header(e: Entry): (r: seq<byte>)
    ensures |r| == NAME_AT
  {
    ToLE(e.ino, 8) + seq(8, _ => 255) + ToLE(RecLen(e), 2) + [e.dtype]
  }

  function Packed(es: seq<Entry>): seq<byte> {
    if es == [] then [] else Record(es[0]) + Packed(es[1..])
  }

  // ---------------------------------------------------------------- the reader

  /** The bytes up to the first zero, if there is one. */
  function NameOf(s: seq<byte>): (r: Option<seq<byte>>)
    ensures r.Some? ==> |r.value| < |s| && r.value == s[..|r.value|]
  {
    if s == [] then None
    else if s[0] == 0 then Some([])
    else match NameOf(s[1..]) case None => None case Some(t) => Some([s[0]] + t)
  }

  /** Walks a buffer by the length stored in each record; fails unless it ends exactly at the
      end, every length is a positive multiple of 8, and every name ends within its record. */
  function Walk(s: seq<byte>): Option<seq<Entry>>
    decreases |s|
  {
    if s == [] then Some([])
    else if |s| <= NAME_AT then None
    else
      var len := LE(s[16..18]);
      if !(NAME_AT < len <= |s|) || len % 8 != 0 then None
      else
        match NameOf(s[NAME_AT..len])
        case None => None
        case Some(name) =>
          match Walk(s[len..])
          case None => None
          case Some(rest) => Some([Entry(Ino(s[..8]), s[18], name)] + rest)
  }

  function Ino(s: seq<byte>): U64
    requires |s| == 8
  {
    assert Pow256(8) == WORD;
    LE(s)
  }

  /** What survives of an entry: its name is cut to 255 characters. */
  function Kept(es: seq<Entry>): (r: seq<Entry>)
    ensures |r| == |es|
  {
    seq(|es|, i requires 0 <= i < |es| => es[i].(name := Cut(es[i].name, NAME_MAX)))
  }

  /** What a reader should find for entry e: its number and type, and up to 255 characters of its
      name. */
  ghost predicate EntryOf(got: Entry, e: Entry) {
    && got.ino == e.ino && got.dtype == e.dtype
    && got.name <= e.name && |got.name| == if |e.name| <= 255 then |e.name| else 255
  }

  ghost predicate EntriesOf(got: Option<seq<Entry>>, es: seq<Entry>) {
    got.Some? && |got.value| == |es| && forall i :: 0 <= i < |es| ==> EntryOf(got.value[i], es[i])
  }

  lemma {:induction false} NameEnds(name: seq<byte>, fill: nat)
    requires NoNul(name) && fill > 0
    ensures NameOf(name + ZeroBytes(fill)) == Some(name)
  {
    var s := name + ZeroBytes(fill);
    if name != [] {
      NameEnds(name[1..], fill);
      assert s[1..] == name[1..] + ZeroBytes(fill);
      assert [name[0]] + name[1..] == name;
    }
  }

  /** One record reads back, whatever follows it. */
  lemma RecordReads(e: Entry, rest: seq<byte>)
    requires Proper(e)
    ensures
      var s := Record(e) + rest;
      && NAME_AT < RecLen(e) <= |s| && RecLen(e) % 8 == 0
      && LE(s[16..18]) == RecLen(e) && Ino(s[..8]) == e.ino && s[18] == e.dtype
      && LE(s[8..16]) == WORD - 1
      && NameOf(s[NAME_AT..RecLen(e)]) == Some(Cut(e.name, NAME_MAX)) && s[RecLen(e)..] == rest
  {
    hide LE, ToLE, NameOf, RecLen;
    RecLenFacts(e);
    var s, name := Record(e) + rest, Cut(e.name, NAME_MAX);
    LEWidths();
    LERoundTrip(e.ino, 8);
    LERoundTrip(RecLen(e), 2);
    MinusOne();
    assert s[..8] == ToLE(e.ino, 8);
    assert s[8..16] == seq(8, _ => 255);
    assert s[16..18] == ToLE(RecLen(e), 2);
    NameEnds(name, RecLen(e) - NAME_AT - |name|);
    assert s[NAME_AT..RecLen(e)] == name + ZeroBytes(RecLen(e) - NAME_AT - |name|);
  }

  lemma MinusOne()
    ensures LE(seq(8, _ => 255)) == WORD - 1
  {
    var s := [255, 255, 255, 255, 255, 255, 255, 255];
    assert seq(8, _ => 255) == s;
    assert LE(s[4..]) == 0xFFFF_FFFF by {
      assert s[4..] == [255, 255, 255, 255];
      assert LE([255]) == 255;
      assert [255, 255][1..] == [255] && [255, 255, 255][1..] == [255, 255] && [255, 255, 255, 255][1..] == [255, 255, 255];
    }
    assert s[3..][1..] == s[4..] && s[2..][1..] == s[3..] && s[1..][1..] == s[2..];
  }

  lemma LEWidths()
    ensures Pow256(8) == WORD && Pow256(2) == 0x1_0000
  {
  }

  /** Packing any entries and walking the result gives the entries back, in order. */
  lemma {:induction false} WalkPacked(es: seq<Entry>)
    requires forall i :: 0 <= i < |es| ==> Proper(es[i])
    ensures Walk(Packed(es)) == Some(Kept(es))
  {
    if es != [] {
      hide Record, RecLen, LE, NameOf;
      WalkPacked(es[1..]);
      RecordReads(es[0], Packed(es[1..]));
      assert Kept(es) == [es[0].(name := Cut(es[0].name, NAME_MAX))] + Kept(es[1..]);
    }
  }

  /** What is walked is each entry, up to 255 characters of its name. */
  lemma WalkedEntries(es: seq<Entry>)
    requires forall i :: 0 <= i < |es| ==> Proper(es[i])
    ensures EntriesOf(Walk(Packed(es)), es)
  {
    hide Walk, Packed, Proper;
    WalkPacked(es);
    var kept := Kept(es);
    forall i | 0 <= i < |es| ensures EntryOf(kept[i], es[i]) {
    }
    hide Kept, EntryOf;
  }

  // ---------------------------------------------------------------- the writer

  lemma {:induction false} PackedSplit(es: seq<Entry>, n: nat)
    requires n < |es|
    ensures Packed(es[..n + 1]) == Packed(es[..n]) + Record(es[n])
  {
    hide Record;
    if n == 0 {
      assert es[..1][1..] == [];
      assert Packed(es[..1]) == Record(es[0]) + [];
    } else {
      PackedSplit(es[1..], n - 1);
      assert es[1..][..n] == es[..n + 1][1..] && es[1..][..n - 1] == es[..n][1..];
    }
  }

  function Size(es: seq<Entry>, n: nat): nat
    requires n <= |es|
  {
    |Packed(es[..n])|
  }

  lemma SizeZero(es: seq<Entry>)
    ensures Size(es, 0) == 0 && Packed(es[..0]) == []
  {
  }

  lemma SizeStep(es: seq<Entry>, n: nat)
    requires n < |es|
    ensures Packed(es[..n + 1]) == Packed(es[..n]) + Record(es[n]) && Size(es, n + 1) == Size(es, n) + RecLen(es[n])
    ensures RecLen(es[n]) % 8 == 0 && 0 < RecLen(es[n]) <= DIRENT_SIZE
  {
    hide Packed, RecLen;
    PackedSplit(es, n);
    RecLenFacts(es[n]);
  }

  /** How many of the entries from the n-th on are packed: the loop stops as soon as the
      requested count is reached. */
  function Fit(es: seq<Entry>, count: nat, n: nat): (k: nat)
    requires n <= |es|
    ensures n <= k <= |es|
    ensures forall m :: n <= m < k ==> Size(es, m) < count
    ensures k == |es| || Size(es, k) >= count
    decreases |es| - n
  {
    if n < |es| && Size(es, n) < count then Fit(es, count, n + 1) else n
  }

  /** The end of what the loop writes: one whole struct from where the last record begins. */
  function Written(es: seq<Entry>, count: nat): nat {
    var k := Fit(es, count, 0);
    if k == 0 then 0 else Size(es, k - 1) + DIRENT_SIZE
  }

  /** Writes one record: the whole struct zeroed, then header and name. */
  method PutRecord(dirp: array<byte>, at: nat, e: Entry)
    requires at + DIRENT_SIZE <= dirp.Length
    modifies dirp
    ensures at + RecLen(e) <= dirp.Length && dirp[at..at + RecLen(e)] == Record(e)
    ensures forall k :: 0 <= k < dirp.Length && !(at <= k < at + DIRENT_SIZE) ==> dirp[k] == old(dirp[k])
  {
    RecLenFacts(e);
    hide RecLen, Header;
    var h, name := Header(e), Cut(e.name, NAME_MAX);
    forall k | 0 <= k < DIRENT_SIZE {
      dirp[at + k] := 0;
    }
    forall k | 0 <= k < NAME_AT {
      dirp[at + k] := h[k];
    }
    forall k | 0 <= k < |name| {
      dirp[at + NAME_AT + k] := name[k];
    }
    assert dirp[at..at + RecLen(e)] == Record(e);
  }

  method AppendRecord(dirp: array<byte>, at: nat, e: Entry)
    requires at + DIRENT_SIZE <= dirp.Length
    modifies dirp
    ensures at + RecLen(e) <= dirp.Length && dirp[..at + RecLen(e)] == old(dirp[..at]) + Record(e)
    ensures forall k :: at + DIRENT_SIZE <= k < dirp.Length ==> dirp[k] == old(dirp[k])
  {
    hide Record, RecLen;
    PutRecord(dirp, at, e);
    assert dirp[..at] == old(dirp[..at]);
    assert dirp[..at + RecLen(e)] == dirp[..at] + dirp[at..at + RecLen(e)];
  }

  /** host_getdents64 on a directory with the given entries. What it writes may be more than count
      bytes: it fails to fit exactly if it would leave the buffer, and the model stops before. */
  method GetDents(dirp: array<byte>, count: nat, es: seq<Entry>) returns (r: Option<nat>)
    modifies dirp
    ensures r.None? <==> Written(es, count) > dirp.Length
    ensures r.Some? ==>
      && r.value == Size(es, Fit(es, count, 0)) && r.value <= dirp.Length
      && dirp[..r.value] == Packed(es[..Fit(es, count, 0)])
      && ((forall i :: 0 <= i < |es| ==> Proper(es[i])) ==> EntriesOf(Walk(dirp[..r.value]), es[..Fit(es, count, 0)]))
      && r.value % 8 == 0 && r.value <= Written(es, count) < count + 280
    ensures forall k :: Written(es, count) <= k < dirp.Length ==> dirp[k] == old(dirp[k])
  {
    SizeZero(es);
    WrittenBounds(es, count);
    hide Record, RecLen, Packed, Size, Walk, Kept, EntriesOf;
    var written, i := 0, 0;
    while written < count && i < |es|
      invariant 0 <= i <= |es| && Fit(es, count, i) == Fit(es, count, 0)
      invariant written == Size(es, i) && written % 8 == 0 && written <= Written(es, count) && written <= dirp.Length
      invariant i > 0 ==> Size(es, i - 1) + DIRENT_SIZE <= dirp.Length
      invariant dirp[..written] == Packed(es[..i])
      invariant forall k :: Written(es, count) <= k < dirp.Length ==> dirp[k] == old(dirp[k])
    {
      StartedFits(es, count, i);
      if written + DIRENT_SIZE > dirp.Length {
        return None;
      }
      SizeStep(es, i);
      AppendRecord(dirp, written, es[i]);
      written := written + RecLen(es[i]);
      i := i + 1;
    }
    if forall j :: 0 <= j < |es| ==> Proper(es[j]) {
      WalkedEntries(es[..i]);
    }
    return Some(written);
  }

  lemma {:induction false} SizeGrows(es: seq<Entry>, m: nat, n: nat)
    requires m < n <= |es|
    ensures Size(es, m) < Size(es, n)
  {
    hide RecLen, Packed;
    SizeStep(es, n - 1);
    if m < n - 1 {
      SizeGrows(es, m, n - 1);
    }
  }

  /** More bytes are returned than were asked for exactly when the count falls strictly inside
      one of the records. */
  lemma OverrunIff(es: seq<Entry>, count: nat)
    ensures Size(es, Fit(es, count, 0)) > count <==>
      exists m :: 0 <= m < |es| && Size(es, m) < count < Size(es, m + 1)
  {
    hide Packed;
    var k := Fit(es, count, 0);
    if Size(es, k) > count {
      SizeZero(es);
      assert 0 <= k - 1 < |es| && Size(es, k - 1) < count < Size(es, k - 1 + 1);
    }
    if m :| 0 <= m < |es| && Size(es, m) < count < Size(es, m + 1) {
      if k < m {
        SizeGrows(es, k, m);
      }
    }
  }

  /** Every record that is started lies, as a whole struct, in what is written. */
  lemma StartedFits(es: seq<Entry>, count: nat, m: nat)
    requires m < Fit(es, count, 0)
    ensures Size(es, m) + DIRENT_SIZE <= Written(es, count)
  {
    hide Size;
    var k := Fit(es, count, 0);
    if m < k - 1 {
      SizeGrows(es, m, k - 1);
    }
  }

  lemma WrittenBounds(es: seq<Entry>, count: nat)
    ensures Size(es, Fit(es, count, 0)) <= Written(es, count)
    ensures Written(es, count) < count + DIRENT_SIZE
  {
    var k := Fit(es, count, 0);
    SizeZero(es);
    hide Size;
    if k > 0 {
      SizeStep(es, k - 1);
      assert Size(es, k - 1) < count;
    }
  }

  /** Bytes past the count are written, though perhaps not returned, exactly when some record that
      begins before the count begins less than one struct before it. */
  lemma StructOverrunIff(es: seq<Entry>, count: nat)
    ensures Written(es, count) > count <==>
      exists m :: 0 <= m < |es| && Size(es, m) < count < Size(es, m) + 280
  {
    hide Size;
    var k := Fit(es, count, 0);
    if Written(es, count) > count {
      assert 0 <= k - 1 < |es| && Size(es, k - 1) < count < Size(es, k - 1) + DIRENT_SIZE;
    }
    if m :| 0 <= m < |es| && Size(es, m) < count < Size(es, m) + DIRENT_SIZE {
      if k < m {
        SizeGrows(es, k, m);
      }
      StartedFits(es, count, m);
    }
  }
}
