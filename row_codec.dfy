/** The fixed layout of a row and the codec between the in-memory Row record
    and its compact 293-byte form: the id in 4 bytes at offset 0, the username
    buffer (32 characters and a terminator) in 33 bytes at offset 4, the email
    buffer (255 characters and a terminator) in 256 bytes at offset 37. */
module RowCodec {
  import opened CStrings

  const COLUMN_USERNAME_SIZE: nat := 32
  const COLUMN_EMAIL_SIZE: nat := 255

  // The sizes and offsets as numbers; Layout states how they derive from the
  // record's fields.
  const ID_SIZE: nat := 4
  const USERNAME_SIZE: nat := 33
  const EMAIL_SIZE: nat := 256
  const ID_OFFSET: nat := 0
  const USERNAME_OFFSET: nat := 4
  const EMAIL_OFFSET: nat := 37
  const ROW_SIZE: nat := 293

  /** Each text buffer holds its column's characters plus a terminator, the
      fields are packed one after another from offset 0 without padding, and
      a row is exactly as long as its three fields together. */
  lemma Layout()
    ensures USERNAME_SIZE == COLUMN_USERNAME_SIZE + 1 && EMAIL_SIZE == COLUMN_EMAIL_SIZE + 1
    ensures ID_OFFSET == 0
    ensures USERNAME_OFFSET == ID_OFFSET + ID_SIZE
    ensures EMAIL_OFFSET == USERNAME_OFFSET + USERNAME_SIZE
    ensures ROW_SIZE == ID_SIZE + USERNAME_SIZE + EMAIL_SIZE
  {
  }

  type uint32 = x: int | 0 <= x < 0x1_0000_0000

  /** The in-memory row record: an unsigned 32-bit id and two fixed-size
      character buffers, each holding a NUL-terminated string. */
  datatype Row = Row(id: uint32, username: seq<byte>, email: seq<byte>)

  /** The buffers have the sizes the record declares. */
  predicate WellFormed(r: Row)
  {
    |r.username| == USERNAME_SIZE && |r.email| == EMAIL_SIZE
  }

  /** What a row stands for, and what printing it shows: the id and the C
      strings the two buffers hold. */
  datatype Record = Record(id: int, username: seq<byte>, email: seq<byte>)

  function View(r: Row): Record
  {
    Record(r.id, CString(r.username), CString(r.email))
  }

  // ---------------------------------------------------------------------
  // The id field: the four bytes of a uint32, least significant first
  // ---------------------------------------------------------------------

  /** The id's bytes, least significant first. */
  function EncodeId(x: uint32): (b: seq<byte>)
    ensures |b| == ID_SIZE
    ensures b[0] as int == x % 0x100 && b[3] as int == x / 0x100_0000
  {
    [(x % 0x100) as byte, (x / 0x100 % 0x100) as byte,
     (x / 0x1_0000 % 0x100) as byte, (x / 0x100_0000) as byte]
  }

  /** The id four bytes hold, least significant first. */
  function DecodeId(b: seq<byte>): (x: uint32)
    requires |b| == ID_SIZE
    ensures x % 0x100 == b[0] as int && x / 0x100_0000 == b[3] as int
  {
    b[0] as int + 0x100 * b[1] as int + 0x1_0000 * b[2] as int + 0x100_0000 * b[3] as int
  }

  /** Decoding the id bytes gives the id back. */
  lemma IdRoundTrip(x: uint32)
    ensures DecodeId(EncodeId(x)) == x
  {
    var x1, x2, x3 := x / 0x100, x / 0x1_0000, x / 0x100_0000;
    assert x == 0x100 * x1 + x % 0x100;
    assert x2 == x1 / 0x100;
    assert x1 == 0x100 * x2 + x1 % 0x100;
    assert x3 == x2 / 0x100;
    assert x2 == 0x100 * x3 + x2 % 0x100;
  }

  lemma SplitLowByte(q: nat, r: byte)
    ensures (0x100 * q + r as int) / 0x100 == q
    ensures (0x100 * q + r as int) % 0x100 == r as int
  {
  }

  /** Every 4-byte pattern is the encoding of the id it decodes to. */
  lemma IdBytesRoundTrip(b: seq<byte>)
    requires |b| == ID_SIZE
    ensures EncodeId(DecodeId(b)) == b
  {
    var x := DecodeId(b) as int;
    var q1 := b[1] as int + 0x100 * b[2] as int + 0x1_0000 * b[3] as int;
    var q2 := b[2] as int + 0x100 * b[3] as int;
    SplitLowByte(q1, b[0]);
    SplitLowByte(q2, b[1]);
    SplitLowByte(b[3] as int, b[2]);
    assert x == 0x100 * q1 + b[0] as int;
    assert x / 0x100 == q1;
    assert q1 == 0x100 * q2 + b[1] as int;
    assert x / 0x1_0000 == q2 by {
      assert x / 0x1_0000 == (x / 0x100) / 0x100;
    }
    assert x / 0x100_0000 == b[3] as int by {
      assert x / 0x100_0000 == (x / 0x1_0000) / 0x100;
    }
  }

  // ---------------------------------------------------------------------
  // serialize_row / deserialize_row
  // ---------------------------------------------------------------------

  /** The compact form of a row: its three fields copied side by side. */
  function Serialize(r: Row): (b: seq<byte>)
    requires WellFormed(r)
    ensures |b| == ROW_SIZE
    ensures b[ID_OFFSET..USERNAME_OFFSET] == EncodeId(r.id)
    ensures b[USERNAME_OFFSET..EMAIL_OFFSET] == r.username
    ensures b[EMAIL_OFFSET..ROW_SIZE] == r.email
  {
    EncodeId(r.id) + r.username + r.email
  }

  /** The row whose compact form is the given block of ROW_SIZE bytes. */
  function Deserialize(b: seq<byte>): (r: Row)
    requires |b| == ROW_SIZE
    ensures WellFormed(r)
  {
    Row(DecodeId(b[ID_OFFSET..USERNAME_OFFSET]), b[USERNAME_OFFSET..EMAIL_OFFSET], b[EMAIL_OFFSET..ROW_SIZE])
  }

  /** deserialize_row undoes serialize_row. */
  lemma RoundTrip(r: Row)
    requires WellFormed(r)
    ensures Deserialize(Serialize(r)) == r
  {
    IdRoundTrip(r.id);
  }

  /** serialize_row undoes deserialize_row: the codec is a bijection between
      well-formed rows and ROW_SIZE-byte blocks. */
  lemma BytesRoundTrip(b: seq<byte>)
    requires |b| == ROW_SIZE
    ensures Serialize(Deserialize(b)) == b
  {
    IdBytesRoundTrip(b[ID_OFFSET..USERNAME_OFFSET]);
    assert b == b[ID_OFFSET..USERNAME_OFFSET] + b[USERNAME_OFFSET..EMAIL_OFFSET] + b[EMAIL_OFFSET..ROW_SIZE];
  }

  /** A row filled by strcpy from strings that fit reads back, after a trip
      through its compact form, as the same id and strings, whatever the
      buffers held before. */
  lemma TextRoundTrip(id: uint32, username: seq<byte>, email: seq<byte>, stale: Row)
    requires WellFormed(stale)
    requires NUL !in username && |username| <= COLUMN_USERNAME_SIZE
    requires NUL !in email && |email| <= COLUMN_EMAIL_SIZE
    ensures View(Deserialize(Serialize(Row(id, Strcpy(stale.username, username), Strcpy(stale.email, email)))))
         == Record(id, username, email)
  {
    RoundTrip(Row(id, Strcpy(stale.username, username), Strcpy(stale.email, email)));
  }
}
