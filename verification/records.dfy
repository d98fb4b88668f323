/** The records of a saved model: a table number, a key, a count and a line end. */
module Records {
  import opened Bytes
  import opened Netstring
  import opened NgramStore

  const NEWLINE: Byte := 10

  datatype Rec = Rec(kind: nat, key: Bytes, count: nat)

  // ---- Little-endian integers ----

  function LittleEndian(n: nat, width: nat): (s: Bytes)
    ensures |s| == width
  {
    if width == 0 then [] else [(n % 256) as Byte] + LittleEndian(n / 256, width - 1)
  }

  function FromLittleEndian(s: Bytes): nat {
    if s == [] then 0 else s[0] as nat + 256 * FromLittleEndian(s[1..])
  }

  function Power256(k: nat): (p: nat)
    ensures p >= 1
  {
    if k == 0 then 1 else 256 * Power256(k - 1)
  }

  lemma {:induction false} IntegerRoundTrip(n: nat, width: nat)
    requires n < Power256(width)
    ensures FromLittleEndian(LittleEndian(n, width)) == n
  {
    if width > 0 {
      IntegerRoundTrip(n / 256, width - 1);
      assert LittleEndian(n, width)[1..] == LittleEndian(n / 256, width - 1);
    }
  }

  lemma Widths()
    ensures Power256(4) == 0x1_0000_0000 && Power256(8) == 0x1_0000_0000_0000_0000
  {
    assert Power256(4) == 256 * (256 * (256 * (256 * Power256(0))));
    assert Power256(8) == 256 * (256 * (256 * (256 * Power256(4))));
  }

  // ---- One record ----

  // What a reader accepts: a table number, a learnable key of that order, a positive 63-bit count.
  ghost predicate ValidRec(r: Rec) {
    1 <= r.kind <= ORDERS && KeyOf(r.key, r.kind) && 1 <= r.count <= INT64_MAX
  }

  function Write(r: Rec): Bytes {
    [(r.kind % 256) as Byte] + LittleEndian(|r.key|, 4) + r.key + LittleEndian(r.count, 8) + [NEWLINE]
  }

  datatype OneRead = Got(r: Rec, rest: Bytes) | Bad

  /** Read the fields of one record from a nonempty stream. */
  function ReadFields(data: Bytes): (one: OneRead)
    requires data != []
    ensures one.Got? ==> |one.rest| < |data|
  {
    if |data| < 5 then Bad
    else
      var length := FromLittleEndian(data[1..5]);
      if length == 0 || length > MAX_KEY || |data| < length + 14 || data[length + 13] != NEWLINE then Bad
      else Got(Rec(data[0] as nat, data[5..length + 5], FromLittleEndian(data[length + 5..length + 13])), data[length + 14..])
  }

  // Where the fields of a record lie.
  lemma Layout(kind: Byte, length: Bytes, key: Bytes, count: Bytes, rest: Bytes)
    requires |length| == 4 && |count| == 8
    ensures var data, n := [kind] + length + key + count + [NEWLINE] + rest, |key|;
      && |data| == n + 14 + |rest| && data[0] == kind && data[1..5] == length && data[5..n + 5] == key
      && data[n + 5..n + 13] == count && data[n + 13] == NEWLINE && data[n + 14..] == rest
  {
  }

  lemma ReadWritten(r: Rec, rest: Bytes)
    requires r.kind < 256 && 1 <= |r.key| <= MAX_KEY && r.count < Power256(8)
    ensures Write(r) + rest != [] && ReadFields(Write(r) + rest) == Got(r, rest)
  {
    hide LittleEndian;
    hide FromLittleEndian;
    hide Power256;
    Widths();
    IntegerRoundTrip(|r.key|, 4);
    IntegerRoundTrip(r.count, 8);
    Layout(r.kind as Byte, LittleEndian(|r.key|, 4), r.key, LittleEndian(r.count, 8), rest);
  }

  lemma {:induction false} KeyLength(key: Bytes, n: nat)
    requires KeyOf(key, n) && 1 <= n <= ORDERS
    ensures 1 <= |key| <= MAX_KEY
  {
    var items := Components(key, n);
    KeyFits(items);
    EncodeAllFirst(items);
    EncodeNonempty(items[0]);
  }

  lemma ValidWritten(r: Rec, rest: Bytes)
    requires ValidRec(r)
    ensures Write(r) + rest != [] && ReadFields(Write(r) + rest) == Got(r, rest)
  {
    hide KeyOf;
    Widths();
    KeyLength(r.key, r.kind);
    ReadWritten(r, rest);
  }

  lemma {:induction false} BytesRoundTrip(s: Bytes)
    ensures LittleEndian(FromLittleEndian(s), |s|) == s
  {
    if s != [] {
      BytesRoundTrip(s[1..]);
      var n, more := FromLittleEndian(s), FromLittleEndian(s[1..]);
      assert n % 256 == s[0] as nat && n / 256 == more;
      assert s == [s[0]] + s[1..];
    }
  }

  lemma Cut(data: Bytes, n: nat)
    requires |data| >= n + 14
    ensures data == [data[0]] + data[1..5] + data[5..n + 5] + data[n + 5..n + 13] + [data[n + 13]] + data[n + 14..]
  {
  }

  // A record that was read is spelled the way it would be written.
  lemma WrittenRead(data: Bytes)
    requires data != [] && ReadFields(data).Got?
    ensures data == Write(ReadFields(data).r) + ReadFields(data).rest
  {
    hide LittleEndian;
    hide FromLittleEndian;
    var one := ReadFields(data);
    var n := |one.r.key|;
    BytesRoundTrip(data[1..5]);
    BytesRoundTrip(data[n + 5..n + 13]);
    Cut(data, n);
  }

  /** Whether a key has exactly this many components, each short enough to be learned. */
  method KeyValid(key: Bytes, components: nat) returns (valid: bool)
    ensures valid <==> KeyOf(key, components)
  {
    hide Next;
    hide Encode;
    hide EncodeAll;
    var rest := key;
    ghost var read: seq<Bytes> := [];
    EncodeNone();
    for i := 0 to components
      invariant |read| == i && Learnable(read) && key == EncodeAll(read) + rest
    {
      var parsed := Next(rest);
      if parsed.Malformed? || |parsed.payload| > MAX_STAGE {
        if KeyOf(key, components) {
          NextComponent(Components(key, components), read, rest);
        }
        return false;
      }
      NextIsRecord(rest, parsed.payload, parsed.rest);
      EncodeMore(read, parsed.payload, parsed.rest);
      read := read + [parsed.payload];
      rest := parsed.rest;
    }
    valid := rest == [];
    if valid {
      assert EncodeAll(read) + [] == EncodeAll(read);
      assert Spells(read, key, components);
    } else if KeyOf(key, components) {
      NothingLeft(Components(key, components), read, rest);
    }
  }

  lemma EncodeMore(read: seq<Bytes>, payload: Bytes, rest: Bytes)
    ensures EncodeAll(read + [payload]) + rest == EncodeAll(read) + (Encode(payload) + rest)
  {
    assert (read + [payload])[..|read|] == read;
  }

  lemma NextComponent(items: seq<Bytes>, read: seq<Bytes>, rest: Bytes)
    requires EncodeAll(items) == EncodeAll(read) + rest && |read| < |items| && Learnable(items)
    ensures Next(rest).Record? && |Next(rest).payload| <= MAX_STAGE
  {
    hide Next;
    hide Encode;
    SharedPrefix(items, read, rest);
    var tail := items[|read|..];
    EncodeAllFirst(tail);
    NextIsRecord(rest, tail[0], EncodeAll(tail[1..]));
  }

  lemma NothingLeft(items: seq<Bytes>, read: seq<Bytes>, rest: Bytes)
    requires EncodeAll(items) == EncodeAll(read) + rest && |read| == |items|
    ensures rest == []
  {
    SharedPrefix(items, read, rest);
  }

  // ---- A whole body ----

  function WriteAll(records: seq<Rec>): Bytes {
    if records == [] then [] else Write(records[0]) + WriteAll(records[1..])
  }

  datatype AllRead = Read(records: seq<Rec>) | Malformed_

  /** What a body means: its records, or nothing if any part of it is not acceptable. */
  ghost function ReadAll(data: Bytes): AllRead
    decreases |data|
  {
    if data == [] then Read([])
    else
      match ReadFields(data)
      case Bad => Malformed_
      case Got(r, rest) =>
        if ValidRec(r) then Prepend(r, ReadAll(rest)) else Malformed_
  }

  ghost function Prepend(r: Rec, all: AllRead): AllRead {
    match all
    case Read(records) => Read([r] + records)
    case Malformed_ => Malformed_
  }

  ghost function PrependAll(records: seq<Rec>, all: AllRead): AllRead {
    match all
    case Read(more) => Read(records + more)
    case Malformed_ => Malformed_
  }

  lemma PrependOneMore(records: seq<Rec>, r: Rec, all: AllRead)
    ensures PrependAll(records, Prepend(r, all)) == PrependAll(records + [r], all)
  {
    match all
    case Read(more) => assert records + ([r] + more) == records + [r] + more;
    case Malformed_ =>
  }

  /** Reading back what was written. */
  lemma {:induction false} BodyRoundTrip(records: seq<Rec>)
    requires forall r :: r in records ==> ValidRec(r)
    ensures ReadAll(WriteAll(records)) == Read(records)
  {
    hide Write;
    hide ReadFields;
    hide ValidRec;
    if records != [] {
      BodyRoundTrip(records[1..]);
      ValidWritten(records[0], WriteAll(records[1..]));
      assert records == [records[0]] + records[1..];
    }
  }

  lemma {:induction false} WriteAllSnoc(records: seq<Rec>, r: Rec)
    ensures WriteAll(records + [r]) == WriteAll(records) + Write(r)
  {
    hide Write;
    if records != [] {
      WriteAllSnoc(records[1..], r);
      assert (records + [r])[1..] == records[1..] + [r];
    }
  }

  /** A body is accepted only if it is the concatenation of the records it means. */
  lemma {:induction false} BodyIsWritten(data: Bytes)
    requires ReadAll(data).Read?
    ensures data == WriteAll(ReadAll(data).records)
    decreases |data|
  {
    hide ReadFields;
    hide ValidRec;
    hide Write;
    if data != [] {
      var one := ReadFields(data);
      WrittenRead(data);
      BodyIsWritten(one.rest);
      var more := ReadAll(one.rest).records;
      assert ([one.r] + more)[1..] == more;
    }
  }

  /** A record octet by octet: the table number, the key's length in four octets, the key "1:a,", the count
      258 in eight octets, and a line feed. */
  lemma RecordExample()
    ensures Write(Rec(1, [49, 58, 97, 44], 258)) == [1, 4, 0, 0, 0, 49, 58, 97, 44, 2, 1, 0, 0, 0, 0, 0, 0, 10]
  {
    FourOctets(4);
    EightOctets(258);
  }

  lemma FourOctets(n: nat)
    requires n < 256
    ensures LittleEndian(n, 4) == [n as Byte, 0, 0, 0]
  {
    ZeroOctets();
    assert LittleEndian(n, 4) == [n as Byte] + LittleEndian(0, 3);
  }

  lemma EightOctets(n: nat)
    requires n < 65536
    ensures LittleEndian(n, 8) == [(n % 256) as Byte, (n / 256) as Byte, 0, 0, 0, 0, 0, 0]
  {
    ZeroOctets();
    assert LittleEndian(n / 256, 7) == [(n / 256) as Byte] + LittleEndian(0, 6);
  }

  lemma ZeroOctets()
    ensures LittleEndian(0, 3) == [0, 0, 0] && LittleEndian(0, 6) == [0, 0, 0, 0, 0, 0]
  {
    assert LittleEndian(0, 3) == [0] + ([0] + ([0] + LittleEndian(0, 0)));
    assert LittleEndian(0, 6) == [0] + ([0] + ([0] + LittleEndian(0, 3)));
  }
}
