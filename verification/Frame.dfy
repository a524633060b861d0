/** Mobile Adapter frames as the test driver writes and reads them. */
module Frame {
  import opened Words

  function Sum(s: seq<byte>): nat {
    if s == [] then 0 else Sum(s[..|s| - 1]) + s[|s| - 1]
  }

  /** Padding to a multiple of four in 32-bit mode. */
  function Padding(wide: bool, size: nat): (n: nat)
    ensures wide ==> (size + n) % 4 == 0
    ensures n < 4 && (!wide ==> n == 0)
  {
    if wide && size % 4 != 0 then 4 - size % 4 else 0
  }

  function Zeros(n: nat): seq<byte> {
    seq(n, _ => 0)
  }

  function Checksum(cmd: byte, data: seq<byte>): nat {
    cmd as int + |data| + Sum(data)
  }

  /** What follows the two magic bytes, up to the checksum. */
  function Body(cmd: byte, data: seq<byte>, wide: bool): seq<byte>
    requires |data| <= 255
  {
    [cmd, 0, 0, |data|] + data + Zeros(Padding(wide, |data|))
  }

  function Split16(n: nat): seq<byte> {
    [n / 0x100 % 0x100, n % 0x100]
  }

  function Encode(cmd: byte, data: seq<byte>, wide: bool): seq<byte>
    requires |data| <= 255
  {
    [0x99, 0x66] + Body(cmd, data, wide) + Split16(Checksum(cmd, data))
  }

  /** Building a frame, as the driver does. */
  method MakeFrame(cmd: byte, data: seq<byte>, wide: bool) returns (full: seq<byte>)
    requires |data| <= 255
    ensures full == Encode(cmd, data, wide)
  {
    full := [0x99, 0x66, cmd, 0, 0, |data|] + data;
    if wide && |data| % 4 != 0 {
      full := full + seq(4 - |data| % 4, _ => 0);
    }
    var total := Add(data);
    var cksum := cmd as int + |data| + total;
    full := full + [cksum / 0x100 % 0x100, cksum % 0x100];
    assert full == Encode(cmd, data, wide);
  }

  // ----- Reading -----

  /** A reply, or one of the driver's complaints; Starved if the bytes run out. */
  datatype Outcome = Reply(cmd: byte, data: seq<byte>) | Timeout | BadChecksum | Starved

  /** The position after the two magic bytes. After a first magic byte the next byte must be the
      second, or the search starts over behind both; at most 200 other bytes are skipped before
      each first magic byte. */
  function Seek(s: seq<byte>, i: nat, skipped: nat): (r: (Outcome, nat))
    requires i <= |s| && skipped <= 200
    ensures i <= r.1 <= |s| && (r.0.Reply? ==> i + 2 <= r.1)
    decreases |s| - i
  {
    if i == |s| then (Starved, i)
    else if s[i] != 0x99 then
      if skipped == 200 then (Timeout, i + 1) else Seek(s, i + 1, skipped + 1)
    else if i + 1 == |s| then (Starved, i + 1)
    else if s[i + 1] == 0x66 then (Reply(0, []), i + 2)
    else Seek(s, i + 2, 0)
  }

  function Word16(hi: byte, lo: byte): nat {
    hi as int * 0x100 + lo
  }

  /** Reads a frame body and its checksum from the front of t. */
  function ReadBody(t: seq<byte>, wide: bool): (r: (Outcome, nat))
    ensures r.1 <= |t|
  {
    if |t| < 4 then (Starved, |t|)
    else
      var end := 4 + t[3] as int + Padding(wide, t[3]);
      if end + 2 > |t| then (Starved, |t|)
      else if Word16(t[end], t[end + 1]) != Sum(t[..end]) % 0x1_0000 then (BadChecksum, end + 2)
      else (Reply(t[0], t[4..4 + t[3] as int]), end + 2)
  }

  function Decode(s: seq<byte>, wide: bool): (Outcome, nat) {
    var (found, i) := Seek(s, 0, 0);
    if found.Reply? then
      var (r, n) := ReadBody(s[i..], wide);
      (r, i + n)
    else (found, i)
  }

  method Add(pack: seq<byte>) returns (total: nat)
    ensures total == Sum(pack)
  {
    total := 0;
    for x := 0 to |pack|
      invariant total == Sum(pack[..x])
    {
      assert pack[..x + 1][..x] == pack[..x];
      total := total + pack[x];
    }
    assert pack[..|pack|] == pack;
  }

  /** The driver's wait for the magic bytes. Each byte it reads is the slave's answer to an idle
      byte; they come from input, in order. */
  method AwaitMagic(input: seq<byte>) returns (r: Outcome, next: nat)
    ensures (r, next) == Seek(input, 0, 0)
  {
    next := 0;
    while true
      invariant next <= |input| && Seek(input, next, 0) == Seek(input, 0, 0)
      decreases |input| - next
    {
      var timeout := 0;
      var c: byte := 0;
      while c != 0x99
        invariant next <= |input| && 0 <= timeout <= 200
        invariant c == 0x99 ==> 0 < next && input[next - 1] == c
        invariant Seek(input, if c == 0x99 then next - 1 else next, timeout) == Seek(input, 0, 0)
        decreases |input| - next
      {
        if next == |input| { return Starved, next; }
        c := input[next];
        next := next + 1;
        if c != 0x99 {
          if timeout >= 200 { return Timeout, next; }
          timeout := timeout + 1;
        }
      }
      if next == |input| { return Starved, next; }
      c := input[next];
      next := next + 1;
      if c == 0x66 { return Reply(0, []), next; }
    }
  }

  method ReadPack(t: seq<byte>, wide: bool) returns (r: Outcome, next: nat)
    ensures (r, next) == ReadBody(t, wide)
  {
    if |t| < 4 { return Starved, |t|; }
    var pack := t[..4];
    next := 4;
    var recvsize: nat := pack[3];
    if wide && recvsize % 4 != 0 {
      recvsize := recvsize + (4 - recvsize % 4);
    }
    if 4 + recvsize + 2 > |t| { return Starved, |t|; }
    for x := 0 to recvsize
      invariant next == 4 + x && pack == t[..next]
    {
      pack := pack + [t[next]];
      next := next + 1;
    }
    assert next == 4 + pack[3] as int + Padding(wide, pack[3]);
    assert t[..next][4..4 + t[3] as int] == t[4..4 + t[3] as int];
    var cksum := Word16(t[next], t[next + 1]);
    next := next + 2;
    var total := Add(pack);
    if cksum != total % 0x1_0000 { return BadChecksum, next; }
    r := Reply(pack[0], pack[4..4 + pack[3] as int]);
  }

  method ReadFrame(input: seq<byte>, wide: bool) returns (r: Outcome, next: nat)
    ensures (r, next) == Decode(input, wide)
  {
    r, next := AwaitMagic(input);
    if r.Reply? {
      var n;
      r, n := ReadPack(input[next..], wide);
      next := next + n;
    }
  }

  // ----- Sums -----

  lemma {:induction false} SumConcat(a: seq<byte>, b: seq<byte>)
    ensures Sum(a + b) == Sum(a) + Sum(b)
  {
    if b == [] {
      assert a + b == a;
    } else {
      var n := |b| - 1;
      SumConcat(a, b[..n]);
      assert (a + b)[..|a + b| - 1] == a + b[..n];
    }
  }

  lemma {:induction false} SumBounded(s: seq<byte>)
    ensures Sum(s) <= 255 * |s|
  {
    if s != [] { SumBounded(s[..|s| - 1]); }
  }

  lemma {:induction false} SumZeros(n: nat)
    ensures Sum(Zeros(n)) == 0
  {
    if n > 0 {
      SumZeros(n - 1);
      assert Zeros(n)[..n - 1] == Zeros(n - 1);
    }
  }

  lemma {:induction false} SumUpdate(s: seq<byte>, k: nat, b: byte)
    requires k < |s|
    ensures Sum(s[k := b]) == Sum(s) - s[k] + b
  {
    var n := |s| - 1;
    if k < n {
      SumUpdate(s[..n], k, b);
      assert s[k := b][..n] == s[..n][k := b];
    } else {
      assert s[k := b][..n] == s[..n];
    }
  }

  /** The checksum fits sixteen bits, with nothing to spare. */
  lemma ChecksumFits(cmd: byte, data: seq<byte>)
    requires |data| <= 255
    ensures Checksum(cmd, data) <= 0xFFFF
  {
    SumBounded(data);
  }

  /** The two bytes of a checksum are read back as the checksum. */
  lemma WordOfSplit(n: nat)
    requires n <= 0xFFFF
    ensures Word16(Split16(n)[0], Split16(n)[1]) == n
  {
  }

  /** The header and the padding add nothing to the sum the reader takes. */
  lemma BodySum(cmd: byte, data: seq<byte>, wide: bool)
    requires |data| <= 255
    ensures Sum(Body(cmd, data, wide)) == Checksum(cmd, data)
  {
    var pad := Zeros(Padding(wide, |data|));
    SumConcat([cmd, 0, 0, |data|] + data, pad);
    SumZeros(|pad|);
    HeadSum(cmd, |data|, data);
  }

  // ----- Round trip -----

  lemma {:induction false} SeekSkips(idle: seq<byte>, rest: seq<byte>, k: nat)
    requires k <= |idle| <= 200 && forall i :: 0 <= i < |idle| ==> idle[i] != 0x99
    requires |rest| >= 2 && rest[0] == 0x99 && rest[1] == 0x66
    ensures Seek(idle + rest, k, k) == (Reply(0, []), |idle| + 2)
    decreases |idle| - k
  {
    if k < |idle| { SeekSkips(idle, rest, k + 1); }
  }

  /** A body whose length byte tells its length. */
  predicate Sized(body: seq<byte>, wide: bool) {
    |body| >= 4 && |body| == 4 + body[3] as int + Padding(wide, body[3])
  }

  /** Reading any such body, with any checksum bytes behind it. */
  function Verdict(body: seq<byte>, hi: byte, lo: byte, wide: bool): Outcome
    requires Sized(body, wide)
  {
    if Word16(hi, lo) == Sum(body) % 0x1_0000 then Reply(body[0], body[4..4 + body[3] as int]) else BadChecksum
  }

  lemma ReadBodyAt(body: seq<byte>, hi: byte, lo: byte, rest: seq<byte>, wide: bool)
    requires Sized(body, wide)
    ensures ReadBody(body + ([hi, lo] + rest), wide) == (Verdict(body, hi, lo, wide), |body| + 2)
  {
    var t := body + ([hi, lo] + rest);
    assert t[..|body|] == body;
    assert t[4..4 + body[3] as int] == body[4..4 + body[3] as int];
  }

  lemma DecodeAfterIdle(idle: seq<byte>, body: seq<byte>, hi: byte, lo: byte, rest: seq<byte>, wide: bool)
    requires |idle| <= 200 && forall i :: 0 <= i < |idle| ==> idle[i] != 0x99
    requires Sized(body, wide)
    ensures Decode(idle + ([0x99, 0x66] + body + [hi, lo]) + rest, wide)
            == (Verdict(body, hi, lo, wide), |idle| + |body| + 4)
  {
    var s := idle + ([0x99, 0x66] + body + [hi, lo]) + rest;
    var tail := body + ([hi, lo] + rest);
    assert s == idle + ([0x99, 0x66] + tail);
    SeekSkips(idle, [0x99, 0x66] + tail, 0);
    assert s[|idle| + 2..] == tail;
    ReadBodyAt(body, hi, lo, rest, wide);
  }

  /** Whatever is written is read back, behind up to 200 idle bytes and in front of anything. */
  lemma FrameRoundTrip(idle: seq<byte>, cmd: byte, data: seq<byte>, wide: bool, rest: seq<byte>)
    requires |idle| <= 200 && forall i :: 0 <= i < |idle| ==> idle[i] != 0x99
    requires |data| <= 255
    ensures Decode(idle + Encode(cmd, data, wide) + rest, wide)
            == (Reply(cmd, data), |idle| + |Encode(cmd, data, wide)|)
  {
    var body, ck := Body(cmd, data, wide), Split16(Checksum(cmd, data));
    BodyVerdict(cmd, data, wide);
    assert Encode(cmd, data, wide) == [0x99, 0x66] + body + [ck[0], ck[1]];
    DecodeAfterIdle(idle, body, ck[0], ck[1], rest, wide);
  }

  /** The limit of 200 is exact. */
  lemma TooMuchIdle(idle: seq<byte>, rest: seq<byte>, wide: bool, k: nat)
    requires k <= 200 < |idle| && forall i :: 0 <= i < |idle| ==> idle[i] != 0x99
    ensures Seek(idle + rest, k, k) == (Timeout, 201)
    ensures k == 0 ==> Decode(idle + rest, wide) == (Timeout, 201)
    decreases 200 - k
  {
    if k < 200 { TooMuchIdle(idle, rest, wide, k + 1); }
  }

  /** The parts of a frame, which in 32-bit mode fills whole words. */
  predicate Frames(f: seq<byte>, cmd: byte, data: seq<byte>, wide: bool, pad: nat, hi: byte, lo: byte)
    requires |data| <= 255
  {
    && f == [0x99, 0x66, cmd, 0, 0, |data|] + data + seq(pad, _ => 0) + [hi, lo]
    && hi as int * 256 + lo == cmd as int + |data| + Sum(data)
    && pad < 4 && (if wide then |f| % 4 == 0 else pad == 0)
  }

  lemma FrameLayout(cmd: byte, data: seq<byte>, wide: bool)
    requires |data| <= 255
    ensures exists pad, hi, lo :: Frames(Encode(cmd, data, wide), cmd, data, wide, pad, hi, lo)
  {
    var f, pad, ck := Encode(cmd, data, wide), Padding(wide, |data|), Split16(Checksum(cmd, data));
    ChecksumFits(cmd, data);
    WordOfSplit(Checksum(cmd, data));
    assert f == [0x99, 0x66, cmd, 0, 0, |data|] + data + seq(pad, _ => 0) + [ck[0], ck[1]];
    WholeWords(|data|, pad, |f|);
    assert Frames(f, cmd, data, wide, pad, ck[0], ck[1]);
  }

  lemma WholeWords(n: nat, pad: nat, length: nat)
    requires length == 8 + n + pad
    ensures (n + pad) % 4 == 0 ==> length % 4 == 0
  {
  }

  // ----- Noise -----

  /** Idle bytes and a first magic byte that is not followed by the second. */
  datatype Attempt = Attempt(idle: seq<byte>, second: byte)

  predicate Idle(s: seq<byte>) {
    |s| <= 200 && forall i :: 0 <= i < |s| ==> s[i] != 0x99
  }

  predicate Misses(a: Attempt) {
    Idle(a.idle) && a.second != 0x66
  }

  function Noise(attempts: seq<Attempt>): seq<byte> {
    if attempts == [] then []
    else attempts[0].idle + ([0x99, attempts[0].second] + Noise(attempts[1..]))
  }

  /** The bytes are any number of false starts, and idle bytes. */
  ghost predicate Noisy(pre: seq<byte>) {
    exists attempts, idle :: Ignored(pre, attempts, idle)
  }

  predicate Ignored(pre: seq<byte>, attempts: seq<Attempt>, idle: seq<byte>) {
    pre == Noise(attempts) + idle && Idle(idle) && forall i :: 0 <= i < |attempts| ==> Misses(attempts[i])
  }

  lemma {:induction false} SeekIdle(s: seq<byte>, i: nat, k: nat, n: nat)
    requires i + n <= |s| && k + n <= 200 && forall j :: i <= j < i + n ==> s[j] != 0x99
    ensures Seek(s, i, k) == Seek(s, i + n, k + n)
    decreases n
  {
    if n > 0 { SeekIdle(s, i + 1, k + 1, n - 1); }
  }

  lemma SuffixAt(s: seq<byte>, i: nat, a: seq<byte>, b: seq<byte>)
    requires i <= |s| && s[i..] == a + b
    ensures i + |a| <= |s| && s[i + |a|..] == b && forall j :: 0 <= j < |a| ==> s[i + j] == a[j]
  {
    assert s[i..][|a|..] == s[i + |a|..];
    forall j | 0 <= j < |a| ensures s[i + j] == a[j] {
      assert s[i + j] == s[i..][j];
    }
  }

  lemma SeekMagic(s: seq<byte>, i: nat, idle: seq<byte>, second: byte, rest: seq<byte>)
    requires i <= |s| && Idle(idle) && s[i..] == idle + ([0x99, second] + rest)
    ensures var n := i + |idle| + 2;
            && n <= |s| && s[n..] == rest
            && Seek(s, i, 0) == if second == 0x66 then (Reply(0, []), n) else Seek(s, n, 0)
  {
    SuffixAt(s, i, idle, [0x99, second] + rest);
    SuffixAt(s, i + |idle|, [0x99, second], rest);
    forall j | i <= j < i + |idle| ensures s[j] != 0x99 {
      assert s[i + (j - i)] == idle[j - i];
    }
    SeekIdle(s, i, 0, |idle|);
    assert s[i + |idle| + 0] == 0x99 && s[i + |idle| + 1] == second;
  }

  lemma Nest(a: seq<byte>, b: seq<byte>, c: seq<byte>)
    ensures (a + b) + c == a + (b + c)
  {
  }

  lemma {:induction false} SeekThroughNoise(
      s: seq<byte>, i: nat, attempts: seq<Attempt>, idle: seq<byte>, rest: seq<byte>)
    requires i <= |s| && s[i..] == Noise(attempts) + (idle + ([0x99, 0x66] + rest))
    requires Idle(idle) && forall j :: 0 <= j < |attempts| ==> Misses(attempts[j])
    ensures Seek(s, i, 0) == (Reply(0, []), i + |Noise(attempts)| + |idle| + 2)
    decreases |attempts|
  {
    var last := idle + ([0x99, 0x66] + rest);
    if attempts == [] {
      assert [] + last == last;
      SeekMagic(s, i, idle, 0x66, rest);
    } else {
      var a, more := attempts[0], Noise(attempts[1..]);
      Nest(a.idle, [0x99, a.second] + more, last);
      Nest([0x99, a.second], more, last);
      SeekMagic(s, i, a.idle, a.second, more + last);
      SeekThroughNoise(s, i + |a.idle| + 2, attempts[1..], idle, rest);
    }
  }

  /** How the reader got from i to the magic bytes at n, having skipped k bytes before. */
  lemma {:induction false} NoiseFound(s: seq<byte>, i: nat, k: nat, n: nat)
    returns (attempts: seq<Attempt>, idle: seq<byte>)
    requires i <= n && n + 2 <= |s| && k <= 200 && s[n] == 0x99
    requires Seek(s, i, k) == (Reply(0, []), n + 2)
    ensures Ignored(s[i..n], attempts, idle)
    ensures k + (if attempts == [] then |idle| else |attempts[0].idle|) <= 200
    decreases n - i
  {
    if i == n {
      attempts, idle := [], [];
    } else if s[i] != 0x99 {
      attempts, idle := NoiseFound(s, i + 1, k + 1, n);
      assert s[i..n] == [s[i]] + s[i + 1..n];
      if attempts == [] {
        idle := [s[i]] + idle;
      } else {
        attempts := [Longer(s[i], attempts[0])] + attempts[1..];
        LongerNoise(s[i], attempts[0].(idle := attempts[0].idle[1..]), attempts[1..], idle);
      }
    } else {
      attempts, idle := NoiseFound(s, i + 2, 0, n);
      var a := Attempt([], s[i + 1]);
      assert s[i..n] == [0x99, s[i + 1]] + s[i + 2..n];
      Nest([0x99, a.second], Noise(attempts), idle);
      attempts := [a] + attempts;
    }
  }

  function Longer(b: byte, a: Attempt): Attempt {
    a.(idle := [b] + a.idle)
  }

  lemma LongerNoise(b: byte, a: Attempt, rest: seq<Attempt>, idle: seq<byte>)
    ensures Noise([Longer(b, a)] + rest) + idle == [b] + (Noise([a] + rest) + idle)
  {
    assert ([Longer(b, a)] + rest)[1..] == rest && ([a] + rest)[1..] == rest;
  }

  lemma SeekFindsIff(pre: seq<byte>, rest: seq<byte>)
    ensures Seek(pre + ([0x99, 0x66] + rest), 0, 0) == (Reply(0, []), |pre| + 2) <==> Noisy(pre)
  {
    var s := pre + ([0x99, 0x66] + rest);
    if Seek(s, 0, 0) == (Reply(0, []), |pre| + 2) {
      var attempts, idle := NoiseFound(s, 0, 0, |pre|);
      assert s[0..|pre|] == pre;
    }
    if attempts, idle :| Ignored(pre, attempts, idle) {
      Nest(Noise(attempts), idle, [0x99, 0x66] + rest);
      assert s[0..] == s;
      SeekThroughNoise(s, 0, attempts, idle, rest);
    }
  }

  lemma ReplySize(t: seq<byte>, wide: bool)
    requires ReadBody(t, wide).0.Reply?
    ensures var (r, n) := ReadBody(t, wide); |t| >= 4 && |r.data| == t[3] && n == Span(wide, t[3])
  {
  }

  function Span(wide: bool, size: nat): nat {
    6 + size + Padding(wide, size)
  }

  /** A reply takes up its header, its payload with padding, and the checksum, so equal replies take up
      the same. */
  lemma SameReply(t: seq<byte>, u: seq<byte>, wide: bool)
    requires ReadBody(t, wide).0.Reply? && ReadBody(u, wide).0 == ReadBody(t, wide).0
    ensures ReadBody(u, wide).1 == ReadBody(t, wide).1
  {
    ReplySize(t, wide);
    ReplySize(u, wide);
  }

  lemma EncodedTail(body: seq<byte>, ck: seq<byte>, rest: seq<byte>)
    requires |ck| == 2
    ensures var f := [0x99, 0x66] + body + ck; f + rest == [0x99, 0x66] + (body + ([ck[0], ck[1]] + rest))
  {
  }

  lemma BodyVerdict(cmd: byte, data: seq<byte>, wide: bool)
    requires |data| <= 255
    ensures var ck := Split16(Checksum(cmd, data));
            Sized(Body(cmd, data, wide), wide) && Verdict(Body(cmd, data, wide), ck[0], ck[1], wide) == Reply(cmd, data)
  {
    BodyIsSized(cmd, data, wide);
    BodySum(cmd, data, wide);
    ChecksumFits(cmd, data);
    WordOfSplit(Checksum(cmd, data));
    assert Body(cmd, data, wide)[4..4 + |data|] == data;
  }

  /** If the search ends in the right place, the body behind it is read. */
  lemma DecodeFrom(s: seq<byte>, n: nat, wide: bool)
    requires n <= |s| && ReadBody(s[n..], wide).0.Reply?
    ensures Decode(s, wide) == (ReadBody(s[n..], wide).0, n + ReadBody(s[n..], wide).1)
            <==> Seek(s, 0, 0) == (Reply(0, []), n)
  {
    var found := Seek(s, 0, 0);
    var body, wanted := ReadBody(s[found.1..], wide), ReadBody(s[n..], wide);
    SeekReplies(s, 0, 0);
    DecodeIs(s, wide);
    if body.0 == wanted.0 { SameReply(s[n..], s[found.1..], wide); }
    OnlyOneWay(Decode(s, wide), found, body, wanted, n);
  }

  lemma DecodeIs(s: seq<byte>, wide: bool)
    ensures var found := Seek(s, 0, 0);
            var body := ReadBody(s[found.1..], wide);
            Decode(s, wide) == if found.0.Reply? then (body.0, found.1 + body.1) else found
  {
  }

  lemma OnlyOneWay(decoded: (Outcome, nat), found: (Outcome, nat), body: (Outcome, nat), wanted: (Outcome, nat), n: nat)
    requires decoded == if found.0.Reply? then (body.0, found.1 + body.1) else found
    requires found.0.Reply? ==> found.0 == Reply(0, [])
    requires wanted.0.Reply? && (body.0 == wanted.0 ==> body.1 == wanted.1) && (found.1 == n ==> body == wanted)
    ensures decoded == (wanted.0, n + wanted.1) <==> found == (Reply(0, []), n)
  {
  }

  lemma BodyFoundIff(pre: seq<byte>, tail: seq<byte>, wide: bool)
    requires ReadBody(tail, wide).0.Reply?
    ensures var (r, n) := ReadBody(tail, wide);
            Decode(pre + ([0x99, 0x66] + tail), wide) == (r, |pre| + 2 + n) <==> Noisy(pre)
  {
    var s := pre + ([0x99, 0x66] + tail);
    SeekFindsIff(pre, tail);
    assert s[|pre| + 2..] == tail;
    DecodeFrom(s, |pre| + 2, wide);
  }

  /** A frame is read back behind any bytes at all, if and only if those are false starts and idle
      bytes. */
  lemma FrameFoundIff(pre: seq<byte>, cmd: byte, data: seq<byte>, wide: bool, rest: seq<byte>)
    requires |data| <= 255
    ensures Decode(pre + (Encode(cmd, data, wide) + rest), wide)
              == (Reply(cmd, data), |pre| + |Encode(cmd, data, wide)|)
            <==> Noisy(pre)
  {
    var body, ck := Body(cmd, data, wide), Split16(Checksum(cmd, data));
    BodyVerdict(cmd, data, wide);
    ReadBodyAt(body, ck[0], ck[1], rest, wide);
    EncodedTail(body, ck, rest);
    BodyFoundIff(pre, body + ([ck[0], ck[1]] + rest), wide);
  }

  lemma {:induction false} SeekReplies(s: seq<byte>, i: nat, k: nat)
    requires i <= |s| && k <= 200
    ensures Seek(s, i, k).0.Reply? ==> Seek(s, i, k).0 == Reply(0, [])
    decreases |s| - i
  {
    if i < |s| && s[i] != 0x99 && k < 200 { SeekReplies(s, i + 1, k + 1); }
    if i + 1 < |s| && s[i] == 0x99 && s[i + 1] != 0x66 { SeekReplies(s, i + 2, 0); }
  }

  /** A stray first magic byte right before a frame hides it. */
  lemma StrayMagicHides(cmd: byte, data: seq<byte>, wide: bool, rest: seq<byte>)
    requires |data| <= 255
    ensures Decode([0x99] + (Encode(cmd, data, wide) + rest), wide)
              != (Reply(cmd, data), 1 + |Encode(cmd, data, wide)|)
  {
    FrameFoundIff([0x99], cmd, data, wide, rest);
    forall attempts, idle ensures !Ignored([0x99], attempts, idle) {
      if attempts == [] { assert Noise(attempts) + idle == idle; }
    }
  }

  // ----- Corruption -----

  /** A frame with one byte changed, anywhere behind the magic bytes except in the length, is
      refused. */
  lemma CorruptionDetected(idle: seq<byte>, cmd: byte, data: seq<byte>, wide: bool, rest: seq<byte>, k: nat, b: byte)
    requires |idle| <= 200 && forall i :: 0 <= i < |idle| ==> idle[i] != 0x99
    requires |data| <= 255
    requires 2 <= k < |Encode(cmd, data, wide)| && k != 5 && b != Encode(cmd, data, wide)[k]
    ensures Decode(idle + Encode(cmd, data, wide)[k := b] + rest, wide).0 == BadChecksum
  {
    var body := Body(cmd, data, wide);
    var ck := Split16(Checksum(cmd, data));
    if k < 2 + |body| {
      CorruptBody(cmd, data, wide, k - 2, b);
      var body' := body[k - 2 := b];
      assert Encode(cmd, data, wide)[k := b] == [0x99, 0x66] + body' + [ck[0], ck[1]];
      DecodeAfterIdle(idle, body', ck[0], ck[1], rest, wide);
    } else {
      var hi := if k == 2 + |body| then b else ck[0];
      var lo := if k == 2 + |body| then ck[1] else b;
      ChecksumFits(cmd, data);
      WordOfSplit(Checksum(cmd, data));
      CorruptChecksum(cmd, data, wide, hi, lo);
      assert Encode(cmd, data, wide)[k := b] == [0x99, 0x66] + body + [hi, lo];
      DecodeAfterIdle(idle, body, hi, lo, rest, wide);
    }
  }

  /** What a reader finds behind the header of a frame: payload, padding, checksum and the rest. */
  function Remains(cmd: byte, data: seq<byte>, wide: bool, rest: seq<byte>): seq<byte> {
    data + Zeros(Padding(wide, |data|)) + Split16(Checksum(cmd, data)) + rest
  }

  function Padded(wide: bool, size: nat): nat {
    size + Padding(wide, size)
  }

  /** The bytes where a reader told the length b looks for the checksum happen to be one. */
  predicate Coincides(cmd: byte, b: byte, t: seq<byte>, wide: bool) {
    var size := Padded(wide, b);
    size + 2 <= |t| && Word16(t[size], t[size + 1]) == (cmd as int + b + Sum(t[..size])) % 0x1_0000
  }

  lemma HeadSum(cmd: byte, b: byte, t: seq<byte>)
    ensures Sum([cmd, 0, 0, b] + t) == cmd as int + b + Sum(t)
  {
    var head: seq<byte> := [cmd, 0, 0, b];
    SumConcat(head, t);
    SumConcat([cmd], [0, 0, b]);
    SumConcat([0, 0], [b]);
    SumZeros(2);
    assert head == [cmd] + [0, 0, b] && [0, 0, b] == [0, 0] + [b] && [0, 0] == Zeros(2);
  }

  lemma HeadIsBody(head: seq<byte>, t: seq<byte>, size: nat)
    requires |head| == 4 && size + 2 <= |t|
    ensures head + t == (head + t[..size]) + ([t[size], t[size + 1]] + t[size + 2..])
  {
  }

  lemma HeadVerdict(cmd: byte, b: byte, t: seq<byte>, wide: bool)
    requires Padded(wide, b) + 2 <= |t|
    ensures var size := Padded(wide, b);
            var body := [cmd, 0, 0, b] + t[..size];
            && Sized(body, wide)
            && Verdict(body, t[size], t[size + 1], wide)
               == if Coincides(cmd, b, t, wide) then Reply(cmd, t[..b]) else BadChecksum
  {
    var size := Padded(wide, b);
    HeadSum(cmd, b, t[..size]);
    assert ([cmd, 0, 0, b] + t[..size])[4..4 + b as int] == t[..b];
  }

  lemma ReadHead(cmd: byte, b: byte, t: seq<byte>, wide: bool)
    ensures ReadBody([cmd, 0, 0, b] + t, wide).0
            == if Padded(wide, b) + 2 > |t| then Starved
               else if Coincides(cmd, b, t, wide) then Reply(cmd, t[..b]) else BadChecksum
  {
    var size := Padded(wide, b);
    var head: seq<byte> := [cmd, 0, 0, b];
    if size + 2 <= |t| {
      HeadIsBody(head, t, size);
      HeadVerdict(cmd, b, t, wide);
      ReadBodyAt(head + t[..size], t[size], t[size + 1], t[size + 2..], wide);
    }
  }

  /** A frame whose length byte has been replaced, by any value at all: the reader runs out of bytes
      if the length points past the end, and otherwise accepts the frame if and only if the bytes the
      length points at happen to be the right checksum, and then takes the payload to be that long. */
  lemma LengthCorruptionIff(idle: seq<byte>, cmd: byte, data: seq<byte>, wide: bool, rest: seq<byte>, b: byte)
    requires |idle| <= 200 && forall i :: 0 <= i < |idle| ==> idle[i] != 0x99
    requires |data| <= 255
    ensures var t := Remains(cmd, data, wide, rest);
            Decode(idle + Encode(cmd, data, wide)[5 := b] + rest, wide).0
            == if Padded(wide, b) + 2 > |t| then Starved
               else if Coincides(cmd, b, t, wide) then Reply(cmd, t[..b]) else BadChecksum
  {
    var t := Remains(cmd, data, wide, rest);
    var tail := [cmd, 0, 0, b] + t;
    var s := idle + Encode(cmd, data, wide)[5 := b] + rest;
    LengthReplaced(cmd, data, wide, rest, b);
    assert s == idle + ([0x99, 0x66] + tail);
    SeekSkips(idle, [0x99, 0x66] + tail, 0);
    assert s[|idle| + 2..] == tail;
    ReadHead(cmd, b, t, wide);
  }

  lemma LengthReplaced(cmd: byte, data: seq<byte>, wide: bool, rest: seq<byte>, b: byte)
    requires |data| <= 255
    ensures Encode(cmd, data, wide)[5 := b] + rest == [0x99, 0x66] + ([cmd, 0, 0, b] + Remains(cmd, data, wide, rest))
  {
  }

  /** A wrong length that leaves the padded size as it is, is always refused. */
  lemma SamePaddingRefused(cmd: byte, data: seq<byte>, wide: bool, rest: seq<byte>, b: byte)
    requires |data| <= 255 && b != |data| && Padded(wide, b) == Padded(wide, |data|)
    ensures !Coincides(cmd, b, Remains(cmd, data, wide, rest), wide)
  {
    var t, pad, ck := Remains(cmd, data, wide, rest), Zeros(Padding(wide, |data|)), Split16(Checksum(cmd, data));
    assert t[..Padded(wide, b)] == data + pad;
    SumConcat(data, pad);
    SumZeros(|pad|);
    ChecksumFits(cmd, data);
    WordOfSplit(Checksum(cmd, data));
  }

  /** So with nothing behind the frame, a wrong length is accepted only if it is shorter even with its
      padding; a longer one never is. */
  lemma OnlyShorterPasses(idle: seq<byte>, cmd: byte, data: seq<byte>, wide: bool, b: byte)
    requires |idle| <= 200 && forall i :: 0 <= i < |idle| ==> idle[i] != 0x99
    requires |data| <= 255 && b != |data|
    ensures Decode(idle + Encode(cmd, data, wide)[5 := b], wide).0.Reply? ==> Padded(wide, b) < Padded(wide, |data|)
  {
    var s := idle + Encode(cmd, data, wide)[5 := b];
    assert s + [] == s;
    LengthCorruptionIff(idle, cmd, data, wide, [], b);
    if Padded(wide, b) == Padded(wide, |data|) { SamePaddingRefused(cmd, data, wide, [], b); }
  }

  /** And there is one that is accepted. */
  lemma LengthUnprotected()
    ensures Decode(Encode(0, [0], false)[5 := 0], false).0 == Reply(0, [])
  {
    var t := Remains(0, [0], false, []);
    assert Sum([0]) == 0 && Checksum(0, [0]) == 1;
    assert t == [0, 0, 1];
    assert Coincides(0, 0, t, false);
    var s := Encode(0, [0], false)[5 := 0];
    assert [] + s + [] == s;
    LengthCorruptionIff([], 0, [0], false, [], 0);
  }

  lemma BodyIsSized(cmd: byte, data: seq<byte>, wide: bool)
    requires |data| <= 255
    ensures Sized(Body(cmd, data, wide), wide)
  {
  }

  lemma NearbyDiffer(sum: nat, other: nat)
    requires sum <= 0xFFFF && sum != other && -0x100 < other - sum < 0x100
    ensures other % 0x1_0000 != sum
  {
  }

  lemma CorruptBody(cmd: byte, data: seq<byte>, wide: bool, k: nat, b: byte)
    requires |data| <= 255
    requires k < |Body(cmd, data, wide)| && k != 3 && b != Body(cmd, data, wide)[k]
    ensures var body := Body(cmd, data, wide)[k := b];
            var ck := Split16(Checksum(cmd, data));
            Sized(body, wide) && Verdict(body, ck[0], ck[1], wide) == BadChecksum
  {
    var body, n := Body(cmd, data, wide), Checksum(cmd, data);
    BodyIsSized(cmd, data, wide);
    BodySum(cmd, data, wide);
    ChecksumFits(cmd, data);
    WordOfSplit(n);
    SumUpdate(body, k, b);
    NearbyDiffer(n, Sum(body[k := b]));
  }

  lemma CorruptChecksum(cmd: byte, data: seq<byte>, wide: bool, hi: byte, lo: byte)
    requires |data| <= 255
    requires Word16(hi, lo) != Checksum(cmd, data)
    ensures Sized(Body(cmd, data, wide), wide)
    ensures Verdict(Body(cmd, data, wide), hi, lo, wide) == BadChecksum
  {
    BodyIsSized(cmd, data, wide);
    BodySum(cmd, data, wide);
    ChecksumFits(cmd, data);
    WrongSumRefused(Body(cmd, data, wide), hi, lo, wide);
  }

  lemma WrongSumRefused(body: seq<byte>, hi: byte, lo: byte, wide: bool)
    requires Sized(body, wide) && Sum(body) <= 0xFFFF && Word16(hi, lo) != Sum(body)
    ensures Verdict(body, hi, lo, wide) == BadChecksum
  {
  }
}
