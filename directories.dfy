/**
 * The directory: slot i names inode i + 1. Each slot has a length (`fsize`)
 * and a row of 30 chars (`fnames`); a slot is free when the first char of its
 * row is 0. Names are compared against whole rows, zero-padded.
 */
module Directories {
  import opened JavaInts
  import opened Codec
  import opened Device
  import opened Options
  import opened Inodes
  import opened SuperBlocks

  const MAX_CHARS: int := 30

  /** `n` zero chars. */
  function NulChars(n: nat): (z: seq<jchar>)
    ensures |z| == n && forall k | 0 <= k < n :: z[k] == 0
  {
    seq(n, _ => 0)
  }

  /** What String.getChars leaves in a zeroed array of `n` chars: the string cut or zero-padded to `n`. */
  function Padded(s: seq<jchar>, n: nat): (r: seq<jchar>)
    ensures |r| == n
  {
    if |s| >= n then s[..n] else s + NulChars(n - |s|)
  }

  /** Char `j` of a padded string: the string's own, or zero past its end. */
  lemma PaddedAt(s: seq<jchar>, n: nat, j: int)
    requires 0 <= j < n
    ensures Padded(s, n)[j] == if j < |s| then s[j] else 0
  {
  }

  // ---------------------------------------------------------------------------
  // compare

  /** The sign of the first difference between `a` and `b` at or after `i`, 0 when there is none. */
  function CompareFrom(a: seq<jchar>, b: seq<jchar>, i: nat): (r: int)
    requires |a| == |b| && i <= |a|
    ensures -1 <= r <= 1
    decreases |a| - i
  {
    if i == |a| then 0
    else if a[i] < b[i] then -1
    else if a[i] > b[i] then 1
    else CompareFrom(a, b, i + 1)
  }

  /** compare(str, row): str cut or zero-padded to the row's length, compared char by char. */
  function Compare(str: seq<jchar>, row: seq<jchar>): int
  {
    CompareFrom(Padded(str, |row|), row, 0)
  }

  lemma {:induction false} CompareFromZeroIff(a: seq<jchar>, b: seq<jchar>, i: nat)
    requires |a| == |b| && i <= |a|
    ensures CompareFrom(a, b, i) == 0 <==> a[i..] == b[i..]
    decreases |a| - i
  {
    if i < |a| {
      CompareFromZeroIff(a, b, i + 1);
      assert a[i..] == [a[i]] + a[i + 1..];
      assert b[i..] == [b[i]] + b[i + 1..];
    }
  }

  /** A nonzero answer is the sign of the first position where the two differ. */
  lemma {:induction false} CompareFromSign(a: seq<jchar>, b: seq<jchar>, i: nat)
    requires |a| == |b| && i <= |a| && CompareFrom(a, b, i) != 0
    ensures exists k | i <= k < |a| ::
      a[i..k] == b[i..k] && a[k] != b[k] && (CompareFrom(a, b, i) < 0 <==> a[k] < b[k])
    decreases |a| - i
  {
    if a[i] == b[i] {
      CompareFromSign(a, b, i + 1);
      var k :| i + 1 <= k < |a| && a[i + 1..k] == b[i + 1..k] && a[k] != b[k]
                && (CompareFrom(a, b, i + 1) < 0 <==> a[k] < b[k]);
      assert a[i..k] == [a[i]] + a[i + 1..k];
      assert b[i..k] == [b[i]] + b[i + 1..k];
    } else {
      assert a[i..i] == b[i..i];
    }
  }

  /** compare answers 0 exactly when the padded name equals the row, and otherwise the sign of the first difference. */
  lemma CompareMeaning(str: seq<jchar>, row: seq<jchar>)
    ensures Compare(str, row) == 0 <==> Padded(str, |row|) == row
    ensures Compare(str, row) in {-1, 0, 1}
    ensures Compare(str, row) != 0 ==>
      exists k | 0 <= k < |row| ::
        Padded(str, |row|)[..k] == row[..k] && Padded(str, |row|)[k] != row[k]
        && (Compare(str, row) < 0 <==> Padded(str, |row|)[k] < row[k])
  {
    var p := Padded(str, |row|);
    CompareFromZeroIff(p, row, 0);
    assert p[0..] == p && row[0..] == row;
    if Compare(str, row) != 0 {
      CompareFromSign(p, row, 0);
      var k :| 0 <= k < |p| && p[0..k] == row[0..k] && p[k] != row[k] && (CompareFrom(p, row, 0) < 0 <==> p[k] < row[k]);
      assert p[..k] == p[0..k] && row[..k] == row[0..k];
    }
  }

  /** A row compares equal to itself read back as a string, as iname's answer does in delete. */
  lemma CompareRowWithItself(row: seq<jchar>)
    ensures Compare(row, row) == 0
  {
    CompareMeaning(row, row);
  }

  /**
   * ifree clears only the first char of a row, and ialloc writes only the new
   * name's chars: a name allocated over a longer stale one is followed by the
   * leftover chars, and no longer compares equal to its own row.
   */
  lemma AllocatedRowMatchesIffClean(name: seq<jchar>, row: seq<jchar>)
    requires |name| <= |row|
    ensures Compare(name, name + row[|name|..]) == 0 <==> forall k | |name| <= k < |row| :: row[k] == 0
  {
    var r := name + row[|name|..];
    CompareMeaning(name, r);
    if forall k | |name| <= k < |row| :: row[k] == 0 {
      assert Padded(name, |r|) == r;
    } else {
      var k :| |name| <= k < |row| && row[k] != 0;
      assert Padded(name, |r|)[k] != r[k];
    }
  }

  // ---------------------------------------------------------------------------
  // Searching the rows

  /** The first row at or after `i` that compares equal to `name`, or -1. */
  function FindFrom(rows: seq<seq<jchar>>, name: seq<jchar>, i: nat): (r: int)
    requires i <= |rows|
    ensures r == -1 || i <= r < |rows|
    ensures r == -1 <==> forall k | i <= k < |rows| :: Compare(name, rows[k]) != 0
    ensures r != -1 ==> Compare(name, rows[r]) == 0 && forall k | i <= k < r :: Compare(name, rows[k]) != 0
    decreases |rows| - i
  {
    if i == |rows| then -1
    else if Compare(name, rows[i]) == 0 then i
    else FindFrom(rows, name, i + 1)
  }

  /** The first free row (first char 0) at or after `i`, or -1. */
  function FreeFrom(rows: seq<seq<jchar>>, i: nat): (r: int)
    requires i <= |rows| && forall k | 0 <= k < |rows| :: |rows[k]| == MAX_CHARS
    ensures r == -1 || i <= r < |rows|
    ensures r == -1 <==> forall k | i <= k < |rows| :: rows[k][0] != 0
    ensures r != -1 ==> rows[r][0] == 0 && forall k | i <= k < r :: rows[k][0] != 0
    decreases |rows| - i
  {
    if i == |rows| then -1
    else if rows[i][0] == 0 then i
    else FreeFrom(rows, i + 1)
  }
  /**
   * ialloc then namei: a new name written into the first free row, over a
   * row that is zero past the name, is the first row namei then matches.
   * Over a stale row, AllocatedRowMatchesIffClean says it is not found there.
   */
  lemma IallocThenNamei(rows: seq<seq<jchar>>, name: seq<jchar>)
    requires forall k | 0 <= k < |rows| :: |rows[k]| == MAX_CHARS
    requires |name| <= MAX_CHARS && FindFrom(rows, name, 0) == -1
    requires FreeFrom(rows, 0) != -1
    requires forall k | |name| <= k < MAX_CHARS :: rows[FreeFrom(rows, 0)][k] == 0
    ensures var free := FreeFrom(rows, 0);
      FindFrom(rows[free := name + rows[free][|name|..]], name, 0) == free
  {
    var free := FreeFrom(rows, 0);
    var after := rows[free := name + rows[free][|name|..]];
    AllocatedRowMatchesIffClean(name, rows[free]);
    assert Compare(name, after[free]) == 0;
  }


  // ---------------------------------------------------------------------------
  // The serialized form: int count, then per slot int length and that many bytes

  /** (byte) c: the low eight bits of a char. */
  function LowByte(c: jchar): byte
  {
    c % 256
  }

  /** (char) b for a Java byte: the byte is sign-extended to sixteen bits. */
  function CharOfByte(b: byte): jchar
  {
    if b < 128 then b else 0xFF00 + b
  }

  /** A char survives the trip through a byte exactly when it is ASCII or a sign-extended byte. */
  lemma CharByteRoundTrip(c: jchar)
    ensures CharOfByte(LowByte(c)) == c <==> c < 128 || 0xFF80 <= c
  {
  }

  function LowBytes(s: seq<jchar>): (r: seq<byte>)
    ensures |r| == |s|
  {
    seq(|s|, i requires 0 <= i < |s| => LowByte(s[i]))
  }

  function CharsOfBytes(s: seq<byte>): (r: seq<jchar>)
    ensures |r| == |s|
  {
    seq(|s|, i requires 0 <= i < |s| => CharOfByte(s[i]))
  }

  /** The bytes directory2bytes writes for one name: its length, then the low byte of each char. */
  function SlotBytes(name: seq<jchar>): (s: seq<byte>)
    ensures |s| == 4 + |name|
  {
    IntBytes(Int32(|name|)) + LowBytes(name)
  }

  /** The total length of the names. */
  function TotalLength(names: seq<seq<jchar>>): nat
  {
    if |names| == 0 then 0 else |names[0]| + TotalLength(names[1..])
  }

  /** directory2bytes' slots, one after the other. */
  function EncodeSlots(names: seq<seq<jchar>>): seq<byte>
  {
    if |names| == 0 then [] else SlotBytes(names[0]) + EncodeSlots(names[1..])
  }

  /** Four bytes per slot, plus the names' lengths. */
  lemma {:induction false} EncodeSlotsLength(names: seq<seq<jchar>>)
    ensures |EncodeSlots(names)| == 4 * |names| + TotalLength(names)
  {
    if |names| > 0 {
      EncodeSlotsLength(names[1..]);
    }
  }

  /** directory2bytes: the number of slots, then the slots. */
  function Serialize(names: seq<seq<jchar>>): (s: seq<byte>)
    requires |names| < TWO_31
    ensures |s| == 4 + 4 * |names| + TotalLength(names)
  {
    EncodeSlotsLength(names);
    IntBytes(|names|) + EncodeSlots(names)
  }

  /** Encoding two runs of slots is encoding each and joining the bytes. */
  lemma {:induction false} EncodeSlotsAppend(a: seq<seq<jchar>>, b: seq<seq<jchar>>)
    ensures EncodeSlots(a + b) == EncodeSlots(a) + EncodeSlots(b)
  {
    if |a| == 0 {
      assert a + b == b;
    } else {
      assert (a + b)[1..] == a[1..] + b;
      EncodeSlotsAppend(a[1..], b);
    }
  }

  /** The total length of two runs of names is the sum of theirs. */
  lemma {:induction false} TotalLengthAppend(a: seq<seq<jchar>>, b: seq<seq<jchar>>)
    ensures TotalLength(a + b) == TotalLength(a) + TotalLength(b)
  {
    if |a| == 0 {
      assert a + b == b;
    } else {
      assert (a + b)[1..] == a[1..] + b;
      TotalLengthAppend(a[1..], b);
    }
  }

  /** A prefix of the names is never longer in total than all of them. */
  lemma TotalLengthPrefix(names: seq<seq<jchar>>, i: int)
    requires 0 <= i <= |names|
    ensures TotalLength(names[..i]) <= TotalLength(names)
  {
    assert names == names[..i] + names[i..];
    TotalLengthAppend(names[..i], names[i..]);
  }

  /** One more slot of directory2bytes' output, and its share of the total length. */
  lemma EncodePrefixStep(names: seq<seq<jchar>>, i: int)
    requires 0 <= i < |names|
    ensures EncodeSlots(names[..i + 1]) == EncodeSlots(names[..i]) + SlotBytes(names[i])
    ensures TotalLength(names[..i + 1]) == TotalLength(names[..i]) + |names[i]|
  {
    var one := [names[i]];
    assert names[..i + 1] == names[..i] + one;
    assert one[1..] == [];
    EncodeSlotsAppend(names[..i], one);
    TotalLengthAppend(names[..i], one);
  }

  /** Writing slot `i` right after the bytes of the slots before it. */
  lemma SlotWritten(before: seq<byte>, after: seq<byte>, index: int, head: seq<byte>, names: seq<seq<jchar>>, i: int)
    requires 0 <= i < |names| && 0 <= index && index + 4 + |names[i]| <= |before|
    requires before[..index] == head + EncodeSlots(names[..i])
    requires after == Splice(before, index, SlotBytes(names[i]))
    ensures after[..index + 4 + |names[i]|] == head + EncodeSlots(names[..i + 1])
  {
    EncodePrefixStep(names, i);
    SplicePrefix(before, index, SlotBytes(names[i]));
  }

  /** What bytes2directory makes of its input. */
  datatype Parsed = BadInput | ParseThrew | Loaded(sizes: seq<int>, rows: seq<seq<jchar>>)

  /**
   * The slots bytes2directory reads from the front of `data`: a length narrowed
   * to a char, then that many bytes widened to chars into a zeroed row, `k`
   * times. None when it runs off the input or a length exceeds the row (both
   * throw).
   */
  function ParseSlots(data: seq<byte>, k: nat): Option<(seq<int>, seq<seq<jchar>>)>
    decreases k
  {
    if k == 0 then Some(([], []))
    else if |data| < 4 then None
    else
      var size := GetInt(data, 0) % TWO_16;
      if size > MAX_CHARS || 4 + size > |data| then None
      else
        var row := Padded(CharsOfBytes(data[4..4 + size]), MAX_CHARS);
        Prepend([size], [row], ParseSlots(data[4 + size..], k - 1))
  }

  /** Slots already read, in front of the slots still to be read. */
  function Prepend(sizes: seq<int>, rows: seq<seq<jchar>>, rest: Option<(seq<int>, seq<seq<jchar>>)>)
    : Option<(seq<int>, seq<seq<jchar>>)>
  {
    match rest
    case None => None
    case Some(p) => Some((sizes + p.0, rows + p.1))
  }

  lemma PrependTwice(s1: seq<int>, r1: seq<seq<jchar>>, s2: seq<int>, r2: seq<seq<jchar>>,
                     rest: Option<(seq<int>, seq<seq<jchar>>)>)
    ensures Prepend(s1, r1, Prepend(s2, r2, rest)) == Prepend(s1 + s2, r1 + r2, rest)
  {
    if rest.Some? {
      assert s1 + (s2 + rest.value.0) == (s1 + s2) + rest.value.0;
      assert r1 + (r2 + rest.value.1) == (r1 + r2) + rest.value.1;
    }
  }

  /** bytes2directory: -1 for an empty input or a count below 1; otherwise the slots, or an exception. */
  function Parse(data: seq<byte>): Parsed
  {
    if |data| == 0 then BadInput
    else if |data| < 4 then ParseThrew
    else if GetInt(data, 0) < 1 then BadInput
    else
      match ParseSlots(data[4..], GetInt(data, 0))
      case None => ParseThrew
      case Some(p) => Loaded(p.0, p.1)
  }

  /** A name of ASCII chars only. */
  predicate AsciiName(name: seq<jchar>)
  {
    forall j | 0 <= j < |name| :: name[j] < 128
  }

  /** Names that fit a row. */
  predicate Fit(names: seq<seq<jchar>>)
  {
    forall i | 0 <= i < |names| :: |names[i]| <= MAX_CHARS
  }

  /** Names of ASCII chars only. */
  predicate Ascii(names: seq<seq<jchar>>)
  {
    forall i | 0 <= i < |names| :: AsciiName(names[i])
  }

  /** Fit and Ascii, name by name from the first: the order bytes2directory reads them in. */
  predicate Storable(names: seq<seq<jchar>>)
  {
    |names| == 0 || (|names[0]| <= MAX_CHARS && AsciiName(names[0]) && Storable(names[1..]))
  }

  lemma {:induction false} StorableOf(names: seq<seq<jchar>>)
    requires Fit(names) && Ascii(names)
    ensures Storable(names)
  {
    if |names| > 0 {
      assert Fit(names[1..]) && Ascii(names[1..]);
      StorableOf(names[1..]);
    }
  }

  /** Each name's length. */
  function Lengths(names: seq<seq<jchar>>): (r: seq<int>)
    ensures |r| == |names|
  {
    if |names| == 0 then [] else [|names[0]|] + Lengths(names[1..])
  }

  /** Each name zero-padded to a row. */
  function PaddedRows(names: seq<seq<jchar>>): (r: seq<seq<jchar>>)
    ensures |r| == |names|
  {
    if |names| == 0 then [] else [Padded(names[0], MAX_CHARS)] + PaddedRows(names[1..])
  }

  lemma {:induction false} LengthsAt(names: seq<seq<jchar>>, i: int)
    requires 0 <= i < |names|
    ensures Lengths(names)[i] == |names[i]|
  {
    if i > 0 {
      LengthsAt(names[1..], i - 1);
    }
  }

  lemma {:induction false} PaddedRowsAt(names: seq<seq<jchar>>, i: int)
    requires 0 <= i < |names|
    ensures PaddedRows(names)[i] == Padded(names[i], MAX_CHARS)
  {
    if i > 0 {
      PaddedRowsAt(names[1..], i - 1);
    }
  }

  /** bytes2directory reading one slot at `start` of its input. */
  lemma ParseSlotsStep(data: seq<byte>, start: nat, size: int, k: nat)
    requires 0 < k && start + 4 <= |data| && size == GetInt(data, start) % TWO_16
    requires size <= MAX_CHARS && start + 4 + size <= |data|
    ensures ParseSlots(data[start..], k)
         == Prepend([size], [Padded(CharsOfBytes(data[start + 4..start + 4 + size]), MAX_CHARS)],
                    ParseSlots(data[start + 4 + size..], k - 1))
  {
    var d := data[start..];
    assert d[0] == data[start] && d[1] == data[start + 1] && d[2] == data[start + 2] && d[3] == data[start + 3];
    assert GetInt(d, 0) == GetInt(data, start);
    assert d[4..4 + size] == data[start + 4..start + 4 + size];
    assert d[4 + size..] == data[start + 4 + size..];
  }

  /** bytes2directory throws at a slot whose header or name runs off the input, or whose length exceeds the row. */
  lemma ParseStops(data: seq<byte>, start: nat, m: nat)
    requires 0 < m && start <= |data|
    requires start + 4 > |data| || GetInt(data, start) % TWO_16 > MAX_CHARS
          || start + 4 + GetInt(data, start) % TWO_16 > |data|
    ensures ParseSlots(data[start..], m) == None
  {
    if start + 4 <= |data| {
      var d := data[start..];
      assert d[0] == data[start] && d[1] == data[start + 1] && d[2] == data[start + 2] && d[3] == data[start + 3];
      assert GetInt(d, 0) == GetInt(data, start);
    }
  }

  /**
   * bytes2directory part-way through its loop: the slots in `done` and `rows`
   * are read, and the slots still to be read start at `offset`.
   */
  ghost predicate Loading(data: seq<byte>, n: nat, done: seq<int>, rows: seq<seq<jchar>>, offset: int)
  {
    4 <= offset <= |data| && |done| <= n
    && ParseSlots(data[4..], n) == Prepend(done, rows, ParseSlots(data[offset..], n - |done|))
  }

  /** One more slot read by bytes2directory's loop, moved from what is left to what is done. */
  lemma LoadProgress(data: seq<byte>, n: nat, done: seq<int>, rows: seq<seq<jchar>>,
                     done': seq<int>, rows': seq<seq<jchar>>, start: nat, size: int, next: nat)
    requires Loading(data, n, done, rows, start) && |done| < n
    requires start + 4 <= |data| && size == GetInt(data, start) % TWO_16 && size <= MAX_CHARS
    requires next == start + 4 + size && next <= |data|
    requires done' == done + [size]
    requires rows' == rows + [Padded(CharsOfBytes(data[start + 4..start + 4 + size]), MAX_CHARS)]
    ensures Loading(data, n, done', rows', next)
  {
    var m := n - |done|;
    ParseSlotsStep(data, start, size, m);
    PrependTwice(done, rows, [size], [Padded(CharsOfBytes(data[start + 4..start + 4 + size]), MAX_CHARS)],
                 ParseSlots(data[next..], m - 1));
  }

  /** The bytes of one ASCII name, in front of any others, read back as its length and its chars. */
  lemma ParseOneSlot(name: seq<jchar>, rest: seq<byte>)
    requires |name| <= MAX_CHARS && AsciiName(name)
    ensures var d := SlotBytes(name) + rest;
      4 + |name| <= |d| && GetInt(d, 0) % TWO_16 == |name|
      && CharsOfBytes(d[4..4 + |name|]) == name && d[4 + |name|..] == rest
  {
    var d := SlotBytes(name) + rest;
    var n := |name|;
    assert d[0..4] == IntBytes(n);
    GetIntOf(d, 0, n);
    assert d[4..4 + n] == LowBytes(name);
    forall j | 0 <= j < n
      ensures CharOfByte(LowByte(name[j])) == name[j]
    {
      CharByteRoundTrip(name[j]);
    }
  }

  /** A slot written by directory2bytes, read by bytes2directory in front of the slots after it. */
  lemma ParseFirstSlot(name: seq<jchar>, rest: seq<byte>, k: nat)
    requires 0 < k && |name| <= MAX_CHARS && AsciiName(name)
    ensures ParseSlots(SlotBytes(name) + rest, k)
         == Prepend([|name|], [Padded(name, MAX_CHARS)], ParseSlots(rest, k - 1))
  {
    ParseOneSlot(name, rest);
  }

  /** Whatever follows them, bytes2directory reads directory2bytes' slots back. */
  lemma {:induction false} ParseEncodedSlots(names: seq<seq<jchar>>, rest: seq<byte>)
    requires Storable(names)
    ensures ParseSlots(EncodeSlots(names) + rest, |names|) == Some((Lengths(names), PaddedRows(names)))
    decreases |names|
  {
    if |names| > 0 {
      var name, tail := names[0], names[1..];
      assert EncodeSlots(names) + rest == SlotBytes(name) + (EncodeSlots(tail) + rest);
      ParseFirstSlot(name, EncodeSlots(tail) + rest, |names|);
      ParseEncodedSlots(tail, rest);
    }
  }

  /**
   * bytes2directory(directory2bytes()) restores the number of slots, each
   * name's length, and each name followed by zeros, provided the names are ASCII.
   */
  lemma SerializeRoundTrip(names: seq<seq<jchar>>)
    requires Fit(names) && Ascii(names) && 1 <= |names| < TWO_31
    ensures Parse(Serialize(names)) == Loaded(Lengths(names), PaddedRows(names))
  {
    var data := Serialize(names);
    assert data[0..4] == IntBytes(|names|);
    GetIntOf(data, 0, |names|);
    assert data[4..] == EncodeSlots(names) + [];
    StorableOf(names);
    ParseEncodedSlots(names, []);
  }

  /** The names in a table: each row cut to its length. */
  function Prefixes(sizes: seq<int>, rows: seq<seq<jchar>>): (r: seq<seq<jchar>>)
    requires |sizes| == |rows| && forall i | 0 <= i < |sizes| :: 0 <= sizes[i] <= |rows[i]|
    ensures |r| == |rows| && forall i | 0 <= i < |rows| :: r[i] == rows[i][..sizes[i]]
  {
    seq(|rows|, i requires 0 <= i < |rows| => rows[i][..sizes[i]])
  }

  /** Rows that hold nothing but zeros after their names. */
  predicate CleanTable(sizes: seq<int>, rows: seq<seq<jchar>>)
  {
    |sizes| == |rows|
    && (forall i | 0 <= i < |sizes| :: 0 <= sizes[i] <= MAX_CHARS && |rows[i]| == MAX_CHARS)
    && forall i, j | 0 <= i < |rows| && sizes[i] <= j < MAX_CHARS :: rows[i][j] == 0
  }

  /**
   * A table whose rows are zero after their names, and whose names are ASCII,
   * comes back from bytes2directory(directory2bytes()) exactly as it was.
   */
  lemma TableRoundTrip(sizes: seq<int>, rows: seq<seq<jchar>>)
    requires CleanTable(sizes, rows) && 1 <= |sizes| < TWO_31
    requires Ascii(Prefixes(sizes, rows))
    ensures Parse(Serialize(Prefixes(sizes, rows))) == Loaded(sizes, rows)
  {
    var names := Prefixes(sizes, rows);
    SerializeRoundTrip(names);
    forall i | 0 <= i < |rows|
      ensures Lengths(names)[i] == sizes[i] && PaddedRows(names)[i] == rows[i]
    {
      LengthsAt(names, i);
      PaddedRowsAt(names, i);
      assert Padded(rows[i][..sizes[i]], MAX_CHARS) == rows[i];
    }
    assert Lengths(names) == sizes && PaddedRows(names) == rows;
  }

  // ---------------------------------------------------------------------------
  // The name table as rows

  /** Row `i` of a name table. */
  function RowOf(a: array2<jchar>, i: int): (r: seq<jchar>)
    reads a
    requires 0 <= i < a.Length0 && a.Length1 == MAX_CHARS
    ensures |r| == MAX_CHARS && forall j | 0 <= j < MAX_CHARS :: r[j] == a[i, j]
  {
    seq(MAX_CHARS, j requires 0 <= j < MAX_CHARS reads a => a[i, j])
  }

  /** All rows of a name table. */
  function RowsOf(a: array2<jchar>): (r: seq<seq<jchar>>)
    reads a
    requires a.Length1 == MAX_CHARS
    ensures |r| == a.Length0 && forall i | 0 <= i < |r| :: r[i] == RowOf(a, i)
  {
    seq(a.Length0, i requires 0 <= i < a.Length0 reads a => RowOf(a, i))
  }

  /** iname over a name table's rows: row `iNumber` itself, for 1 <= iNumber < |rows|. */
  function InameIn(rows: seq<seq<jchar>>, iNumber: int): (r: Option<seq<jchar>>)
    ensures r.Some? <==> 1 <= iNumber < |rows|
    ensures r.Some? ==> r.value == rows[iNumber] && Compare(r.value, rows[iNumber]) == 0
  {
    if iNumber < 1 || iNumber >= |rows| then None
    else
      CompareRowWithItself(rows[iNumber]);
      Some(rows[iNumber])
  }

  // ---------------------------------------------------------------------------
  // The directory object

  class Directory {
    var fsize: array<int>
    var fnames: array2<jchar>

    ghost predicate Valid()
      reads this, fsize
    {
      fnames.Length0 == fsize.Length && fnames.Length1 == MAX_CHARS
      && 1 <= fsize.Length < TWO_15
      && forall i | 0 <= i < fsize.Length :: 0 <= fsize[i] <= MAX_CHARS
    }

    /** Directory(maxInumber): slot 0 is "/" of length 1; every other slot is empty and zero. */
    constructor (maxInumber: int)
      requires 1 <= maxInumber < TWO_15
      ensures Valid() && fresh(fsize) && fresh(fnames)
      ensures fsize[..] == [1] + seq(maxInumber - 1, _ => 0)
      ensures RowsOf(fnames) == [Padded(['/' as int], MAX_CHARS)] + seq(maxInumber - 1, _ => NulChars(MAX_CHARS))
    {
      fsize := new int[maxInumber](_ => 0);
      fnames := new jchar[maxInumber, MAX_CHARS]((_, _) => 0);
      new;
      for i := 0 to maxInumber
        modifies fsize, fnames
        invariant forall k | 0 <= k < maxInumber :: fsize[k] == 0
        invariant forall k, j | 0 <= k < maxInumber && 0 <= j < MAX_CHARS :: fnames[k, j] == 0
      {
        fsize[i] := 0;
        fnames[i, 0] := 0;
      }
      var root := ['/' as int];
      fsize[0] := |root|;
      fnames[0, 0] := root[0];
      ghost var want := [Padded(root, MAX_CHARS)] + seq(maxInumber - 1, _ => NulChars(MAX_CHARS));
      forall k | 0 <= k < maxInumber
        ensures RowOf(fnames, k) == want[k]
      {
        if k == 0 {
          assert RowOf(fnames, 0) == Padded(root, MAX_CHARS);
        } else {
          assert RowOf(fnames, k) == NulChars(MAX_CHARS);
        }
      }
      assert fsize[..] == [1] + seq(maxInumber - 1, _ => 0);
      assert RowsOf(fnames) == want;
    }

    /** namei: the inode number of the first slot whose row matches `filename`, or -1. */
    function Namei(filename: seq<jchar>): (r: int)
      reads this, fsize, fnames
      requires Valid()
      ensures r == -1 || 1 <= r <= fsize.Length
      ensures |filename| > MAX_CHARS ==> r == -1
      ensures |filename| <= MAX_CHARS ==>
        (r == -1 <==> forall k | 0 <= k < fsize.Length :: Compare(filename, RowOf(fnames, k)) != 0)
      ensures r != -1 ==>
        Compare(filename, RowOf(fnames, r - 1)) == 0 && forall k | 0 <= k < r - 1 :: Compare(filename, RowOf(fnames, k)) != 0
    {
      if |filename| > MAX_CHARS then -1
      else
        var slot := FindFrom(RowsOf(fnames), filename, 0);
        if slot == -1 then -1 else slot + 1
    }

    /** iname: the whole 30-char row of slot `iNumber` (not iNumber - 1), or null. */
    function Iname(iNumber: int): (r: Option<seq<jchar>>)
      reads this, fsize, fnames
      requires Valid()
      ensures r.Some? <==> 1 <= iNumber < fsize.Length
      ensures r.Some? ==> r.value == RowOf(fnames, iNumber) && Compare(r.value, RowOf(fnames, iNumber)) == 0
    {
      InameIn(RowsOf(fnames), iNumber)
    }

    /**
     * ialloc: -1 for a name longer than 30, a name some row already matches,
     * or no free slot; otherwise the name goes into the first free slot (the
     * rest of that row is left as it was), the inode is reset on the device,
     * and the answer is the slot's inode number.
     */
    method Ialloc(filename: seq<jchar>, sb: SuperBlock) returns (r: short)
      requires Valid() && sb.Valid()
      modifies fsize, fnames, sb.disk
      ensures Valid()
      ensures var free := FreeFrom(old(RowsOf(fnames)), 0);
        var ok := |filename| <= MAX_CHARS && free != -1 && FindFrom(old(RowsOf(fnames)), filename, 0) == -1;
        if ok then
          r == free + 1
          && fsize[..] == old(fsize[..])[free := |filename|]
          && RowsOf(fnames) == old(RowsOf(fnames))[free := filename + old(RowsOf(fnames))[free][|filename|..]]
          && sb.disk.blocks == StoreRecord(old(sb.disk.blocks), free + 1, InvalidRecord(), sb.totalInodes, sb.totalBlocks)
          && ((forall k | |filename| <= k < MAX_CHARS :: old(RowsOf(fnames))[free][k] == 0) ==> Namei(filename) == r)
        else
          r == -1 && fsize[..] == old(fsize[..]) && RowsOf(fnames) == old(RowsOf(fnames)) && sb.disk.blocks == old(sb.disk.blocks)
    {
      if |filename| > MAX_CHARS {
        return -1;
      }
      var freeINumber, matched := Scan(filename);
      if freeINumber == -1 || matched {
        return -1;
      }
      ghost var rows := RowsOf(fnames);
      PutName(freeINumber, filename);
      if forall k | |filename| <= k < MAX_CHARS :: rows[freeINumber][k] == 0 {
        IallocThenNamei(rows, filename);
      }
      var val: short := freeINumber + 1;
      ResetInode(val, sb);
      return val;
    }

    /** ialloc's `new Inode(iNumber)`, its reset to an unused inode, and toDisk. */
    static method ResetInode(iNumber: short, sb: SuperBlock)
      requires sb.Valid()
      modifies sb.disk
      ensures sb.Valid()
      ensures sb.disk.blocks == StoreRecord(old(sb.disk.blocks), iNumber, InvalidRecord(), sb.totalInodes, sb.totalBlocks)
    {
      var inode := new Inode.Load(iNumber, sb.totalInodes, sb.totalBlocks, sb.disk);
      inode.Invalidate();
      var _ := inode.ToDisk(iNumber, sb.totalInodes, sb.totalBlocks, sb.disk);
    }

    /**
     * ialloc's search: it stops at the first row that matches `filename`, and
     * remembers the first free row it passed on the way.
     */
    method Scan(filename: seq<jchar>) returns (freeINumber: int, matched: bool)
      requires Valid()
      ensures matched <==> FindFrom(RowsOf(fnames), filename, 0) != -1
      ensures !matched ==> freeINumber == FreeFrom(RowsOf(fnames), 0)
    {
      ghost var rows := RowsOf(fnames);
      var iNumber: int := 0;
      freeINumber := -1;
      while iNumber < fsize.Length
        invariant 0 <= iNumber <= fsize.Length
        invariant freeINumber == -1 ==> forall k | 0 <= k < iNumber :: rows[k][0] != 0
        invariant freeINumber != -1 ==> freeINumber == FreeFrom(rows, 0) && freeINumber < iNumber
        invariant forall k | 0 <= k < iNumber :: Compare(filename, rows[k]) != 0
      {
        if fnames[iNumber, 0] == 0 && freeINumber == -1 {
          assert rows[iNumber][0] == 0;
          freeINumber := iNumber;
        }
        if Compare(filename, RowOf(fnames, iNumber)) == 0 {
          return freeINumber, true;
        }
        iNumber := iNumber + 1;
      }
      return freeINumber, false;
    }

    /** ialloc's update of a slot: its length, and the name's chars over the start of the row. */
    method PutName(slot: int, filename: seq<jchar>)
      requires Valid() && 0 <= slot < fsize.Length && |filename| <= MAX_CHARS
      modifies fsize, fnames
      ensures Valid()
      ensures fsize[..] == old(fsize[..])[slot := |filename|]
      ensures RowsOf(fnames) == old(RowsOf(fnames))[slot := filename + old(RowsOf(fnames))[slot][|filename|..]]
    {
      ghost var rows := RowsOf(fnames);
      fsize[slot] := |filename|;
      for j := 0 to |filename|
        modifies fnames
        invariant forall k, m | 0 <= k < fnames.Length0 && 0 <= m < MAX_CHARS ::
          fnames[k, m] == if k == slot && m < j then filename[m] else rows[k][m]
      {
        fnames[slot, j] := filename[j];
      }
      forall k | 0 <= k < fnames.Length0
        ensures RowOf(fnames, k) == rows[slot := filename + rows[slot][|filename|..]][k]
      {
        assert RowOf(fnames, k) == if k == slot then filename + rows[slot][|filename|..] else rows[k];
      }
      assert RowsOf(fnames) == rows[slot := filename + rows[slot][|filename|..]];
    }

    /** ifree: false outside 1 .. fsize.length; otherwise reset the inode on the device and empty the slot. */
    method Ifree(iNumber: short, sb: SuperBlock) returns (ok: bool)
      requires Valid() && sb.Valid()
      modifies fsize, fnames, sb.disk
      ensures Valid()
      ensures ok == (1 <= iNumber <= fsize.Length)
      ensures ok ==>
        fsize[..] == old(fsize[..])[iNumber - 1 := 0]
        && RowsOf(fnames) == old(RowsOf(fnames))[iNumber - 1 := old(RowsOf(fnames))[iNumber - 1][0 := 0]]
        && sb.disk.blocks == StoreRecord(old(sb.disk.blocks), iNumber, InvalidRecord(), sb.totalInodes, sb.totalBlocks)
      ensures !ok ==> fsize[..] == old(fsize[..]) && RowsOf(fnames) == old(RowsOf(fnames)) && sb.disk.blocks == old(sb.disk.blocks)
    {
      if iNumber < 1 || iNumber > fsize.Length {
        return false;
      }
      ghost var rows := RowsOf(fnames);
      var inode := new Inode.Load(iNumber, sb.totalInodes, sb.totalBlocks, sb.disk);
      inode.Invalidate();
      var _ := inode.ToDisk(iNumber, sb.totalInodes, sb.totalBlocks, sb.disk);
      fsize[iNumber - 1] := 0;
      fnames[iNumber - 1, 0] := 0;
      forall k | 0 <= k < fnames.Length0
        ensures RowOf(fnames, k) == rows[iNumber - 1 := rows[iNumber - 1][0 := 0]][k]
      {
        assert RowOf(fnames, k) == if k == iNumber - 1 then rows[iNumber - 1][0 := 0] else rows[k];
      }
      assert RowsOf(fnames) == rows[iNumber - 1 := rows[iNumber - 1][0 := 0]];
      return true;
    }

    /** The names the directory holds: each row cut to its length. */
    ghost function Names(): (r: seq<seq<jchar>>)
      reads this, fsize, fnames
      requires Valid()
      ensures |r| == fsize.Length
    {
      Prefixes(fsize[..], RowsOf(fnames))
    }

    /** directory2bytes: the number of slots, then each slot's length and the low bytes of its name. */
    method DirectoryToBytes() returns (serialized: array<byte>)
      requires Valid()
      ensures serialized[..] == Serialize(Names())
    {
      ghost var names := Names();
      var totalFSize := TotalSize();
      serialized := new byte[4 + fsize.Length * 4 + totalFSize](_ => 0);
      WriteInt(serialized, 0, fsize.Length);
      ghost var head := IntBytes(fsize.Length);
      var index := 4;
      assert serialized[..4] == head + EncodeSlots(names[..0]);
      for i := 0 to fsize.Length
        invariant index == 4 + 4 * i + TotalLength(names[..i])
        invariant 4 <= index <= serialized.Length
        invariant serialized[..index] == head + EncodeSlots(names[..i])
        invariant unchanged(this, fsize, fnames)
      {
        assert |names[i]| == fsize[i];
        EncodePrefixStep(names, i);
        TotalLengthPrefix(names, i + 1);
        ghost var before, start := serialized[..], index;
        index := WriteSlot(serialized, index, i);
        SlotWritten(before, serialized[..], start, head, names, i);
      }
      assert names[..fsize.Length] == names;
      assert serialized[..] == serialized[..index];
    }

    /** directory2bytes' first loop: the total length of all names. */
    method TotalSize() returns (totalFSize: int)
      requires Valid()
      ensures totalFSize == TotalLength(Names())
      ensures 0 <= totalFSize <= MAX_CHARS * fsize.Length
    {
      ghost var names := Names();
      totalFSize := 0;
      for i := 0 to fsize.Length
        invariant totalFSize == TotalLength(names[..i])
        invariant 0 <= totalFSize <= MAX_CHARS * i
      {
        EncodePrefixStep(names, i);
        totalFSize := totalFSize + fsize[i];
      }
      assert names[..fsize.Length] == names;
    }

    /** directory2bytes for slot `i`: its length, then the low byte of each of its chars. */
    method WriteSlot(serialized: array<byte>, index: int, i: int) returns (next: int)
      requires Valid() && 0 <= i < fsize.Length
      requires 0 <= index && index + 4 + fsize[i] <= serialized.Length
      modifies serialized
      ensures next == index + 4 + fsize[i]
      ensures serialized[..] == Splice(old(serialized[..]), index, SlotBytes(Names()[i]))
    {
      ghost var s := serialized[..];
      ghost var row := RowOf(fnames, i);
      var size := fsize[i];
      WriteInt(serialized, index, size);
      next := index + 4;
      for j := 0 to size
        invariant next == index + 4 + j
        invariant serialized[..] == Splice(s, index, IntBytes(size) + LowBytes(row[..j]))
      {
        SlotByteStep(s, index, size, row, j);
        serialized[next] := LowByte(fnames[i, j]);
        next := next + 1;
      }
      assert Names()[i] == row[..size];
    }

    /** One more char of a slot written: the splice with one more low byte is the last one updated at that byte. */
    static lemma SlotByteStep(s: seq<byte>, index: int, size: int32, row: seq<jchar>, j: int)
      requires 0 <= j < |row| && 0 <= index && index + 4 + j + 1 <= |s|
      ensures Splice(s, index, IntBytes(size) + LowBytes(row[..j + 1]))
        == Splice(s, index, IntBytes(size) + LowBytes(row[..j]))[index + 4 + j := LowByte(row[j])]
    {
      var b := IntBytes(size) + LowBytes(row[..j]);
      assert row[..j + 1] == row[..j] + [row[j]];
      assert LowBytes(row[..j + 1]) == LowBytes(row[..j]) + [LowByte(row[j])];
      SpliceExtend(s, index, b, [LowByte(row[j])]);
      var t := Splice(s, index, b);
      assert Splice(t, index + |b|, [LowByte(row[j])]) == t[index + 4 + j := LowByte(row[j])];
    }

    /**
     * bytes2directory: -1 (nothing changed) for an empty input or a count
     * below 1; otherwise both arrays are replaced by fresh ones, each slot's
     * length narrowed to a char and its bytes widened into the zeroed row, and
     * the count is returned. A short input or a length over 30 throws.
     */
    method BytesToDirectory(data: seq<byte>) returns (out: Outcome<int>)
      requires Valid()
      modifies this
      ensures match Parse(data)
        case BadInput => out == Returned(-1) && fsize == old(fsize) && fnames == old(fnames) && Valid()
        case ParseThrew => out == Threw && (|data| < 4 ==> fsize == old(fsize) && fnames == old(fnames))
        case Loaded(sizes, rows) =>
          out == Returned(|sizes|) && fresh(fsize) && fresh(fnames) && fnames.Length1 == MAX_CHARS
          && fsize[..] == sizes && RowsOf(fnames) == rows && (|sizes| < TWO_15 ==> Valid())
    {
      if |data| == 0 {
        return Returned(-1);
      }
      if |data| < 4 {
        return Threw;
      }
      var offset := 0;
      var maxInumber := GetInt(data, offset);
      if maxInumber < 1 {
        return Returned(-1);
      }
      offset := 4;
      var sizes := new int[maxInumber](_ => 0);
      var names := new jchar[maxInumber, MAX_CHARS]((_, _) => 0);
      fsize, fnames := sizes, names;
      assert forall k | 0 <= k < maxInumber :: RowOf(names, k) == NulChars(MAX_CHARS);
      var ok := LoadSlots(sizes, names, data);
      if !ok {
        return Threw;
      }
      return Returned(maxInumber);
    }
  }

  /**
   * bytes2directory's loop over the slots, into a fresh zeroed table: it
   * succeeds exactly when every slot can be read, and then holds what was read.
   */
  method LoadSlots(sizes: array<int>, names: array2<jchar>, data: seq<byte>) returns (ok: bool)
    requires sizes.Length == names.Length0 && names.Length1 == MAX_CHARS && 4 <= |data|
    requires forall k | 0 <= k < names.Length0 :: RowOf(names, k) == NulChars(MAX_CHARS)
    modifies sizes, names
    ensures ok <==> ParseSlots(data[4..], sizes.Length).Some?
    ensures ok ==> ParseSlots(data[4..], sizes.Length) == Some((sizes[..], RowsOf(names)))
    ensures ok ==> forall k | 0 <= k < sizes.Length :: 0 <= sizes[k] <= MAX_CHARS
  {
    var maxInumber := sizes.Length;
    var offset := 4;
    ghost var rows: seq<seq<jchar>> := [];
    var iNumber := 0;
    assert sizes[..0] == [];
    match ParseSlots(data[4..], maxInumber) {
      case None =>
      case Some(p) => assert [] + p.0 == p.0 && [] + p.1 == p.1;
    }
    while iNumber < maxInumber
      invariant 0 <= iNumber <= maxInumber && 4 <= offset <= |data|
      invariant |rows| == iNumber
      invariant forall k | 0 <= k < iNumber :: 0 <= sizes[k] <= MAX_CHARS
      invariant forall k | 0 <= k < maxInumber :: RowOf(names, k) == if k < iNumber then rows[k] else NulChars(MAX_CHARS)
      invariant Loading(data, maxInumber, sizes[..iNumber], rows, offset)
    {
      var loaded, next := LoadSlot(sizes, names, data, iNumber, offset, rows);
      if !loaded {
        return false;
      }
      rows := rows + [RowOf(names, iNumber)];
      offset := next;
      iNumber := iNumber + 1;
    }
    assert sizes[..] == sizes[..maxInumber];
    assert ParseSlots(data[offset..], 0) == Some(([], []));
    assert sizes[..] + [] == sizes[..] && rows + [] == rows;
    assert RowsOf(names) == rows;
    return true;
  }

  /**
   * One pass of bytes2directory's loop: slot `iNumber`'s length at `offset`,
   * then its name into the zeroed row. On success the slot is read and the
   * next one starts at `next`; otherwise the whole input fails to parse.
   */
  method LoadSlot(sizes: array<int>, names: array2<jchar>, data: seq<byte>, iNumber: int, offset: int,
                  ghost rows: seq<seq<jchar>>) returns (ok: bool, next: int)
    requires sizes.Length == names.Length0 && names.Length1 == MAX_CHARS
    requires 0 <= iNumber < sizes.Length && |rows| == iNumber
    requires RowOf(names, iNumber) == NulChars(MAX_CHARS)
    requires Loading(data, sizes.Length, sizes[..iNumber], rows, offset)
    modifies sizes, names
    ensures !ok ==> ParseSlots(data[4..], sizes.Length) == None
    ensures ok ==> offset < next <= |data| && 0 <= sizes[iNumber] <= MAX_CHARS
    ensures ok ==> forall k | 0 <= k < sizes.Length && k != iNumber :: sizes[k] == old(sizes[k])
    ensures ok ==> forall k | 0 <= k < names.Length0 && k != iNumber :: RowOf(names, k) == old(RowOf(names, k))
    ensures ok ==> Loading(data, sizes.Length, sizes[..iNumber + 1], rows + [RowOf(names, iNumber)], next)
  {
    var n := sizes.Length;
    if offset + 4 > |data| {
      ParseStops(data, offset, n - iNumber);
      return false, offset;
    }
    var size := GetInt(data, offset) % TWO_16;
    ghost var done := sizes[..iNumber];
    sizes[iNumber] := size;
    var loaded := LoadName(names, iNumber, data, offset + 4, size);
    if !loaded {
      ParseStops(data, offset, n - iNumber);
      return false, offset;
    }
    next := offset + 4 + size;
    ghost var done' := sizes[..iNumber + 1];
    ghost var rows' := rows + [RowOf(names, iNumber)];
    assert done' == done + [size];
    LoadProgress(data, n, done, rows, done', rows', offset, size, next);
    ok := true;
  }

  /**
   * bytes2directory for one name: `size` bytes from `from` on, each widened to
   * a char, into the zeroed row `k`. It fails (throws) when the row or the
   * input runs out.
   */
  method LoadName(names: array2<jchar>, k: int, data: seq<byte>, from: int, size: int) returns (ok: bool)
    requires 0 <= k < names.Length0 && names.Length1 == MAX_CHARS && 0 <= from <= |data| && 0 <= size
    requires RowOf(names, k) == NulChars(MAX_CHARS)
    modifies names
    ensures ok == (size <= MAX_CHARS && from + size <= |data|)
    ensures ok ==> RowOf(names, k) == Padded(CharsOfBytes(data[from..from + size]), MAX_CHARS)
    ensures ok ==> forall i | 0 <= i < names.Length0 && i != k :: RowOf(names, i) == old(RowOf(names, i))
  {
    for i := 0 to size
      invariant i <= MAX_CHARS && from + i <= |data|
      invariant forall r, j | 0 <= r < names.Length0 && 0 <= j < MAX_CHARS ::
        names[r, j] == if r == k && j < i then CharOfByte(data[from + j]) else old(names[r, j])
    {
      if i >= MAX_CHARS || from + i >= |data| {
        return false;
      }
      names[k, i] := CharOfByte(data[from + i]);
    }
    ghost var chars := CharsOfBytes(data[from..from + size]);
    forall j | 0 <= j < MAX_CHARS
      ensures RowOf(names, k)[j] == Padded(chars, MAX_CHARS)[j]
    {
      PaddedAt(chars, MAX_CHARS, j);
    }
    forall i | 0 <= i < names.Length0 && i != k
      ensures RowOf(names, i) == old(RowOf(names, i))
    {
      assert forall j | 0 <= j < MAX_CHARS :: RowOf(names, i)[j] == old(RowOf(names, i))[j];
    }
    return true;
  }
}
