/** Bytes, little-endian words, and the error-carrying results shared by every
    part of the eID reader model. */
module Common {

  /** An unsigned 8-bit value (Rust `u8`). */
  type byte = x: int | 0 <= x < 0x100

  /** An unsigned 16-bit value (Rust `u16`). */
  type u16 = x: int | 0 <= x < 0x1_0000

  /** The 16-bit value stored little-endian in `lo`, `hi`
      (what `read_u16::<LittleEndian>` yields, and what the header
      arithmetic `(hi << 8) + lo` yields). */
  function LeU16(lo: byte, hi: byte): u16 {
    lo + 256 * hi
  }

  /** The two little-endian bytes of a 16-bit value. */
  function LeBytes(w: u16): (r: seq<byte>)
    ensures |r| == 2
    ensures LeU16(r[0], r[1]) == w
  {
    [w % 256, w / 256]
  }

  /** Little-endian decoding is injective: the bytes are determined by the value. */
  lemma LeU16Injective(lo: byte, hi: byte, lo': byte, hi': byte)
    requires LeU16(lo, hi) == LeU16(lo', hi')
    ensures lo == lo' && hi == hi'
  {
    assert lo == LeU16(lo, hi) % 256 && lo' == LeU16(lo', hi') % 256;
  }

  /** Why a Rust operation would have panicked instead of returning. */
  datatype Fault =
    | StatusWordMissing   // `rapdu.len() - 2` on a reply shorter than two bytes
    | SliceOutOfRange     // a slice or `drain` whose range leaves the buffer
    | IndexOutOfRange     // `data[i]` past the end of a reply
    | Underflow           // an unsigned subtraction that would go negative

  /** Every way an operation of the reader can fail. */
  datatype Error =
    | TransportError(reason: string)  // the reader or the card channel failed
    | StatusError(sw1: byte, sw2: byte) // the card answered with a status other than 90 00
    | EndOfBuffer                      // `read_u16` ran out of input
    | UnknownCardType                  // the ATR matched no known signature
    | Panic(fault: Fault)              // the Rust code would abort

  /** A value or the error that prevented computing it. */
  datatype Result<+T> = Ok(value: T) | Err(error: Error)

  /** Success or failure of an operation that returns nothing (Rust `Result<(), String>`). */
  datatype Outcome = Pass | Fail(error: Error)

  /** Whether an operation with result `r` passed, and the error if it did not. */
  function Verdict<T>(r: Result<T>): (o: Outcome)
    ensures o.Pass? <==> r.Ok?
    ensures r.Err? ==> o.error == r.error
  {
    if r.Ok? then Pass else Fail(r.error)
  }

  /** An error that comes from the card channel: the transport failed, or the
      card answered with a status other than 90 00. Every other error is a
      decoding failure or a panic of the reader itself. */
  predicate FromCard(e: Error) {
    e.TransportError? || e.StatusError?
  }

  datatype Option<+T> = None | Some(value: T)
}
