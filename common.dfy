/**
 * Types shared by the whole model: bytes, 32-bit words, the network and host
 * byte orders, C strings, and the three ways the program gives up on an error.
 */
module Common {

  /** An unsigned 8-bit byte, as stored in files and string buffers. */
  newtype byte = x: int | 0 <= x < 256

  /** An unsigned 32-bit word (`u_int32_t`). */
  newtype u32 = x: int | 0 <= x < 0x1_0000_0000

  type Bytes = seq<byte>

  datatype Option<T> = None | Some(value: T)

  /**
   * The program never returns an error code from a failed invariant: it calls
   * BUG (an internal contract violation), FATAL (an unexpected system or I/O
   * failure) or DIE (the user supplied something unusable), each of which
   * prints a message and exits. Here each one is an outcome value.
   */
  datatype Failure = Bug(msg: string) | Fatal(msg: string) | Die(msg: string)

  /** A value, or the failure that ended the program instead. */
  datatype Result<T> = Ok(value: T) | Err(failure: Failure)

  function Min(a: nat, b: nat): nat {
    if a <= b then a else b
  }

  /**
   * The output path of a command: the one given with `-o`, or else the input
   * path followed by the command's suffix, as `strbuf_attach_fmt` builds it
   * from `"%s<suffix>"`.
   */
  function OutputPath(input: string, output: Option<string>, suffix: string): string {
    if output.Some? then output.value else input + suffix
  }

  /** Reduction of an unbounded integer to 32 bits, as `u_int32_t` arithmetic does. */
  function Wrap32(x: int): (r: u32)
    ensures 0 <= x < 0x1_0000_0000 ==> r as int == x
  {
    (x % 0x1_0000_0000) as u32
  }

  /** The reduction differs from the integer by a multiple of 2^32. */
  lemma Wrap32Congruent(x: int)
    ensures (Wrap32(x) as int - x) % 0x1_0000_0000 == 0
  {
    var q := x / 0x1_0000_0000;
    assert x == q * 0x1_0000_0000 + Wrap32(x) as int;
    assert Wrap32(x) as int - x == -q * 0x1_0000_0000;
  }

  /** The four bytes of `x` in network (big-endian) order, as `htonl` lays them out. */
  function BigEndian(x: u32): (r: Bytes)
    ensures |r| == 4
  {
    [(x as int / 0x100_0000) as byte, (x as int / 0x1_0000 % 0x100) as byte,
     (x as int / 0x100 % 0x100) as byte, (x as int % 0x100) as byte]
  }

  /** The four bytes of `x` in little-endian order: what a host-order store writes on x86. */
  function LittleEndian(x: u32): (r: Bytes)
    ensures |r| == 4
  {
    [(x as int % 0x100) as byte, (x as int / 0x100 % 0x100) as byte,
     (x as int / 0x1_0000 % 0x100) as byte, (x as int / 0x100_0000) as byte]
  }

  /** The word that four bytes in network order denote, as `ntohl` of a 4-byte load. */
  function ReadBigEndian(b: Bytes): (r: u32)
    requires |b| == 4
  {
    (b[0] as int * 0x100_0000 + b[1] as int * 0x1_0000 + b[2] as int * 0x100 + b[3] as int) as u32
  }

  /** Writing a word in network order and reading it back gives the word. */
  lemma BigEndianRoundTrip(x: u32)
    ensures ReadBigEndian(BigEndian(x)) == x
  {
    var n := x as int;
    var b0, b1, b2, b3 := n / 0x100_0000, n / 0x1_0000 % 0x100, n / 0x100 % 0x100, n % 0x100;
    assert n / 0x1_0000 == b0 * 0x100 + b1;
    assert n / 0x100 == (n / 0x1_0000) * 0x100 + b2;
    assert n == (n / 0x100) * 0x100 + b3;
  }

  /** Reading four bytes as a word and writing it back gives the same four bytes. */
  lemma ReadBigEndianRoundTrip(b: Bytes)
    requires |b| == 4
    ensures BigEndian(ReadBigEndian(b)) == b
  {
    var n := ReadBigEndian(b) as int;
    var b0, b1, b2, b3 := b[0] as int, b[1] as int, b[2] as int, b[3] as int;
    assert n == (b0 * 0x1_0000 + b1 * 0x100 + b2) * 0x100 + b3;
    assert n / 0x100 == b0 * 0x1_0000 + b1 * 0x100 + b2 && n % 0x100 == b3;
    assert n == (b0 * 0x100 + b1) * 0x1_0000 + (b2 * 0x100 + b3);
    assert n / 0x1_0000 == b0 * 0x100 + b1;
    var r := BigEndian(ReadBigEndian(b));
    assert r[0] == b[0] && r[1] == b[1] && r[2] == b[2] && r[3] == b[3];
  }

  /** Two words with the same network-order bytes are the same word. */
  lemma BigEndianInjective(x: u32, y: u32)
    requires BigEndian(x) == BigEndian(y)
    ensures x == y
  {
    BigEndianRoundTrip(x);
    BigEndianRoundTrip(y);
  }

  /** Concatenation regroups freely. */
  lemma SeqAssoc<T>(a: seq<T>, b: seq<T>, c: seq<T>)
    ensures a + (b + c) == a + b + c
  {
  }

  /** Appending nothing leaves a sequence as it is. */
  lemma SeqRightUnit<T>(a: seq<T>, b: seq<T>)
    requires b == []
    ensures a + b == a
  {
  }

  /** Appending to nothing gives the appended sequence. */
  lemma SeqLeftUnit<T>(a: seq<T>, b: seq<T>)
    requires a == []
    ensures a + b == b
  {
  }

  /** A byte that `isascii` accepts. */
  predicate IsAscii(b: byte) {
    b < 128
  }

  /** Each character of a C string as the byte it is stored as. */
  function Latin1(s: string): (r: Bytes)
    ensures |r| == |s|
  {
    seq(|s|, i requires 0 <= i < |s| => (s[i] as int % 256) as byte)
  }

  /**
   * `strlen` of the bytes: the index of the first NUL byte, or the whole
   * length when there is none.
   */
  function CStrLen(b: Bytes): (r: nat)
    ensures r <= |b|
    ensures forall i :: 0 <= i < r ==> b[i] != 0
    ensures r < |b| ==> b[r] == 0
  {
    if |b| == 0 || b[0] == 0 then 0 else 1 + CStrLen(b[1..])
  }

  /** The C string that starts at the first byte: everything before the first NUL. */
  function CStr(b: Bytes): (r: Bytes)
    ensures |r| <= |b| && r == b[..|r|]
    ensures 0 !in r
  {
    b[..CStrLen(b)]
  }

  /** A C string that stops at a NUL reads the same through any bytes after it. */
  lemma {:induction false} CStrOfTerminated(s: Bytes, rest: Bytes)
    requires 0 !in s
    ensures CStr(s + [0] + rest) == s
  {
    if s != [] {
      assert (s + [0] + rest)[1..] == s[1..] + [0] + rest;
      CStrOfTerminated(s[1..], rest);
    }
  }
}
