/** Machine words: bytes, 32-bit unsigned subtraction and the 31-bit clock mask. */
module Words {

  type byte = x: int | 0 <= x < 0x100

  type uint32 = x: int | 0 <= x < 0x1_0000_0000

  /** Unsigned 32-bit subtraction, which wraps. */
  function Sub32(a: uint32, b: uint32): uint32 {
    (a - b) % 0x1_0000_0000
  }

  /** The bits kept by the mask 0x7FFFFFFF. */
  function Low31(x: int): (r: int)
    ensures 0 <= r < 0x8000_0000
  {
    x % 0x8000_0000
  }

  /** How far the masked clock has to advance to get from one reading to another. */
  function Forward(from: uint32, to: uint32): (d: int)
    ensures 0 <= d < 0x8000_0000
  {
    Low31(Sub32(to, from))
  }

  /** The wrapped distance between two readings is the distance, modulo 2^31, between any two
      unbounded times the readings stand for. */
  lemma ForwardOfTimes(from: uint32, to: uint32, s: int, t: int)
    requires Low31(from) == Low31(s) && Low31(to) == Low31(t)
    ensures Forward(from, to) == Low31(t - s)
  {
    var a, b := from / 0x8000_0000, to / 0x8000_0000;
    var c, d := s / 0x8000_0000, t / 0x8000_0000;
    assert from - s == 0x8000_0000 * (a - c);
    assert to - t == 0x8000_0000 * (b - d);
    var q := (to - from) / 0x1_0000_0000;
    assert Sub32(to, from) == t - s + 0x8000_0000 * ((b - d) - (a - c) - 2 * q);
  }

  /** Distances shorter than one turn of the clock are read back exactly. */
  lemma ForwardExact(from: uint32, to: uint32, s: int, t: int)
    requires Low31(from) == Low31(s) && Low31(to) == Low31(t)
    ensures 0 <= t - s < 0x8000_0000 ==> Forward(from, to) == t - s
    ensures -0x8000_0000 <= t - s < 0 ==> Forward(from, to) == t - s + 0x8000_0000
  {
    ForwardOfTimes(from, to, s, t);
  }

  /** Measured the other way round, a non-zero distance is its complement in one turn. */
  lemma ForwardReverse(a: uint32, b: uint32)
    ensures Forward(b, a) == if Forward(a, b) == 0 then 0 else 0x8000_0000 - Forward(a, b)
  {
    ForwardOfTimes(a, b, a, b);
    ForwardOfTimes(b, a, b, a);
  }

  /** Advancing by a masked distance lands on the masked target. */
  lemma Low31Advance(from: int, to: int)
    ensures Low31(from + Low31(to - from)) == Low31(to)
    ensures Low31(from + Low31(to - from) - 0x8000_0000) == Low31(to)
  {
    var q := (to - from) / 0x8000_0000;
    assert from + Low31(to - from) == to - 0x8000_0000 * q;
  }
}
