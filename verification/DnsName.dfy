/** Domain names on the wire, as the test DNS server writes and reads them. */
module DnsName {
  import opened Words
  import opened Options
  import opened Utf8

  type text = seq<scalar>

  const DOT: byte := 46

  // ----- Labels -----

  /** The labels of a dotted name; the empty name has one empty label. */
  function Split(s: text): (labels: seq<text>)
    ensures labels != []
  {
    if s == [] then [[]]
    else
      var rest := Split(s[1..]);
      if s[0] == DOT then [[]] + rest else [[s[0]] + rest[0]] + rest[1..]
  }

  function Join(labels: seq<text>): text {
    if labels == [] then []
    else if |labels| == 1 then labels[0]
    else labels[0] + [DOT] + Join(labels[1..])
  }

  predicate Fits(labels: seq<text>) {
    forall i :: 0 <= i < |labels| ==> |labels[i]| <= 255
  }

  lemma {:induction false} JoinSplit(s: text)
    ensures Join(Split(s)) == s
  {
    if s != [] {
      JoinSplit(s[1..]);
      var rest := Split(s[1..]);
      if s[0] == DOT {
        assert ([[]] + rest)[1..] == rest;
      } else {
        var labels := Split(s);
        assert labels[1..] == rest[1..];
      }
    }
  }

  predicate NoDots(labels: seq<text>) {
    forall i :: 0 <= i < |labels| ==> DOT !in labels[i]
  }

  lemma {:induction false} SplitHasNoDots(s: text)
    ensures NoDots(Split(s))
  {
    if s != [] { SplitHasNoDots(s[1..]); }
  }

  /** 256 characters in a row, from i on, without a dot. */
  predicate Unbroken(s: text, i: nat) {
    i + 256 <= |s| && forall j :: i <= j < i + 256 ==> s[j] != DOT
  }

  lemma {:induction false} FirstLabel(s: text)
    ensures var n := |Split(s)[0]|;
            n <= |s| && (forall j :: 0 <= j < n ==> s[j] != DOT) && (n < |s| ==> s[n] == DOT)
  {
    if s != [] {
      FirstLabel(s[1..]);
      var n := |Split(s[1..])[0]|;
      assert forall j :: 0 < j < |s| ==> s[j] == s[1..][j - 1];
    }
  }

  lemma UnbrokenTail(s: text, i: nat)
    requires s != []
    ensures Unbroken(s, i + 1) <==> Unbroken(s[1..], i)
  {
    if Unbroken(s[1..], i) {
      forall j | i + 1 <= j < i + 257 ensures s[j] != DOT {
        assert s[j] == s[1..][j - 1];
      }
    }
  }

  lemma UnbrokenFront(s: text)
    ensures Unbroken(s, 0) <==> |Split(s)[0]| > 255
  {
    FirstLabel(s);
  }

  lemma FitsCons(labels: seq<text>)
    requires labels != []
    ensures Fits(labels) <==> |labels[0]| <= 255 && Fits(labels[1..])
  {
    if Fits(labels[1..]) {
      forall i | 0 < i < |labels| ensures |labels[i]| <= 255 {
        assert labels[i] == labels[1..][i - 1];
      }
    }
  }

  lemma SplitFits(s: text)
    requires s != []
    ensures Fits(Split(s)) <==> Fits(Split(s[1..])) && |Split(s)[0]| <= 255
  {
    var rest := Split(s[1..]);
    FitsCons(rest);
    FitsCons(Split(s));
    assert Split(s)[1..] == if s[0] == DOT then rest else rest[1..];
  }

  /** The labels fit unless the name has 256 characters in a row without a dot. */
  lemma {:induction false} FitsIff(s: text)
    ensures Fits(Split(s)) <==> forall i: nat :: !Unbroken(s, i)
  {
    if s != [] {
      FitsIff(s[1..]);
      UnbrokenFront(s);
      SplitFits(s);
      if Fits(Split(s)) {
        forall i: nat ensures !Unbroken(s, i) {
          if i > 0 { UnbrokenTail(s, i - 1); }
        }
      } else if Fits(Split(s[1..])) {
        assert Unbroken(s, 0);
      } else {
        var i: nat :| Unbroken(s[1..], i);
        UnbrokenTail(s, i);
      }
    }
  }

  // ----- Writing -----

  /** A label as it is written: the number of its characters, and its bytes. */
  datatype Field = Field(size: byte, bytes: seq<byte>)

  function Fields(labels: seq<text>): (fields: seq<Field>)
    requires Fits(labels)
    ensures |fields| == |labels|
  {
    seq(|labels|, i requires 0 <= i < |labels| => Field(|labels[i]|, Encode(labels[i])))
  }

  /** The fields in order, and a terminator. */
  function Pack(fields: seq<Field>): (p: seq<byte>)
    ensures p != []
  {
    if fields == [] then [0] else [fields[0].size] + (fields[0].bytes + Pack(fields[1..]))
  }

  function Encoded(s: text): seq<byte>
    requires Fits(Split(s))
  {
    Pack(Fields(Split(s)))
  }

  /** What is still to be written from label i on. */
  function Pending(labels: seq<text>, i: nat): seq<byte>
    requires Fits(labels) && i <= |labels|
  {
    Pack(Fields(labels)[i..])
  }

  lemma PackOn(res: seq<byte>, labels: seq<text>, i: nat)
    requires Fits(labels) && i < |labels|
    ensures res + Pending(labels, i) == res + [|labels[i]|] + Encode(labels[i]) + Pending(labels, i + 1)
  {
    assert Fields(labels)[i..][1..] == Fields(labels)[i + 1..];
  }

  lemma PackBounds(labels: seq<text>)
    requires Fits(labels)
    ensures Pending(labels, 0) == Pack(Fields(labels)) && Pending(labels, |labels|) == [0]
  {
    assert Fields(labels)[0..] == Fields(labels);
  }

  /** Fails on a label with too many characters for its length byte. */
  method MakeName(s: text) returns (r: Option<seq<byte>>)
    ensures r == if Fits(Split(s)) then Some(Encoded(s)) else None
  {
    var labels := Split(s);
    var res: seq<byte> := [];
    if Fits(labels) { PackBounds(labels); }
    for i := 0 to |labels|
      invariant Fits(labels[..i])
      invariant Fits(labels) ==> res + Pending(labels, i) == Encoded(s)
    {
      if |labels[i]| > 255 { return None; }
      if Fits(labels) { PackOn(res, labels, i); }
      res := res + [|labels[i]|];
      res := res + Encode(labels[i]);
    }
    assert labels[..|labels|] == labels;
    return Some(res + [0]);
  }

  // ----- Reading -----

  /** What reading a name comes to. A message that ends before a terminator and a label that is not
      UTF-8 both raise an exception. */
  datatype Parsed = Name(name: text, next: nat) | Missing | Undecodable

  /** At most size bytes from offset offs on. */
  function Slice(data: seq<byte>, offs: nat, size: nat): seq<byte>
    requires offs <= |data|
  {
    if offs + size <= |data| then data[offs..offs + size] else data[offs..]
  }

  /** The bytes of the labels found from offset offs on. */
  function Parts(data: seq<byte>, offs: nat): seq<seq<byte>>
    decreases |data| - offs
  {
    if offs >= |data| || data[offs] == 0 then []
    else [Slice(data, offs + 1, data[offs])] + Parts(data, offs + 1 + data[offs] as int)
  }

  /** The offset behind the terminator, if there is one. */
  function End(data: seq<byte>, offs: nat): Option<nat>
    decreases |data| - offs
  {
    if offs >= |data| then None
    else if data[offs] == 0 then Some(offs + 1)
    else End(data, offs + 1 + data[offs] as int)
  }

  function Extend(res: text, part: text): text {
    if res == [] then part else res + [DOT] + part
  }

  /** What the reader makes of res when it meets the parts, if they can all be decoded. */
  function Gather(res: text, parts: seq<seq<byte>>): Option<text>
    decreases |parts|
  {
    if parts == [] then Some(res)
    else
      match Decode(parts[0])
      case None => None
      case Some(word) => Gather(Extend(res, word), parts[1..])
  }

  /** The name at offset offs and the offset behind it. A label cut off by the end of the message is
      taken as far as it goes, and may be what cannot be decoded. */
  function Read(data: seq<byte>, offs: nat): Parsed {
    match Gather([], Parts(data, offs))
    case None => Undecodable
    case Some(name) => if End(data, offs).Some? then Name(name, End(data, offs).value) else Missing
  }

  lemma GatherCons(res: text, part: seq<byte>, rest: seq<seq<byte>>)
    ensures Gather(res, [part] + rest) ==
              if Decode(part).Some? then Gather(Extend(res, Decode(part).value), rest) else None
  {
    var parts := [part] + rest;
    assert parts[0] == part && parts[1..] == rest;
  }

  /** Going on from offs with res in hand leads to the same result as starting at offset. */
  predicate OnTheWay(data: seq<byte>, offset: nat, offs: nat, res: text) {
    End(data, offs) == End(data, offset) && Gather(res, Parts(data, offs)) == Gather([], Parts(data, offset))
  }

  lemma ReadOn(data: seq<byte>, offset: nat, offs: nat, res: text, word: Option<text>)
    requires OnTheWay(data, offset, offs, res) && offs < |data| && data[offs] != 0
    requires word == Decode(Slice(data, offs + 1, data[offs]))
    ensures word.Some? ==> OnTheWay(data, offset, offs + 1 + data[offs] as int, Extend(res, word.value))
    ensures word.None? ==> Read(data, offset) == Undecodable
  {
    GatherCons(res, Slice(data, offs + 1, data[offs]), Parts(data, offs + 1 + data[offs] as int));
  }

  lemma ReadEnds(data: seq<byte>, offset: nat, offs: nat, res: text)
    requires OnTheWay(data, offset, offs, res) && (offs >= |data| || data[offs] == 0)
    ensures Read(data, offset) == if offs >= |data| then Missing else Name(res, offs + 1)
  {
  }

  method ReadName(data: seq<byte>, offset: nat) returns (r: Parsed)
    ensures r == Read(data, offset)
  {
    var res: text, offs := [], offset;
    while offs < |data| && data[offs] != 0
      invariant OnTheWay(data, offset, offs, res)
      decreases |data| - offs
    {
      var siz: nat := data[offs];
      var word := Decode(Slice(data, offs + 1, siz));
      ReadOn(data, offset, offs, res, word);
      if word.None? { return Undecodable; }
      res := Append(res, word.value);
      offs := offs + 1 + siz;
    }
    ReadEnds(data, offset, offs, res);
    if offs >= |data| { return Missing; }
    r := Name(res, offs + 1);
  }

  method Append(res: text, part: text) returns (r: text)
    ensures r == Extend(res, part)
  {
    r := res;
    if r != [] { r := r + [DOT]; }
    r := r + part;
    if res == [] { assert r == part; }
  }

  // ----- Where the fields were written -----

  lemma SuffixSplits(data: seq<byte>, offs: nat, front: seq<byte>, rest: seq<byte>)
    requires offs <= |data| && data[offs..] == front + rest
    ensures offs + |front| <= |data| && data[offs..offs + |front|] == front && data[offs + |front|..] == rest
  {
    var tail := data[offs..];
    assert data[offs..offs + |front|] == tail[..|front|];
    assert data[offs + |front|..] == tail[|front|..];
  }

  lemma PackStep(fields: seq<Field>, post: seq<byte>)
    requires fields != []
    ensures Pack(fields) + post == [fields[0].size] + (fields[0].bytes + (Pack(fields[1..]) + post))
  {
  }

  function Behind(offs: nat, field: Field): nat {
    offs + 1 + |field.bytes|
  }

  predicate FieldAt(data: seq<byte>, offs: nat, field: Field) {
    && Behind(offs, field) <= |data|
    && data[offs] == field.size
    && data[offs + 1..Behind(offs, field)] == field.bytes
  }

  /** The fields are written at offset offs, with end just behind their terminator. */
  predicate Written(data: seq<byte>, offs: nat, fields: seq<Field>, end: nat)
    decreases |fields|
  {
    if fields == [] then offs < |data| && data[offs] == 0 && end == offs + 1
    else FieldAt(data, offs, fields[0]) && Written(data, Behind(offs, fields[0]), fields[1..], end)
  }

  lemma {:induction false} PackIsWritten(data: seq<byte>, offs: nat, fields: seq<Field>, post: seq<byte>)
    requires offs <= |data| && data[offs..] == Pack(fields) + post
    ensures Written(data, offs, fields, offs + |Pack(fields)|)
    decreases |fields|
  {
    if fields == [] {
      SuffixSplits(data, offs, [0], post);
    } else {
      var rest := Pack(fields[1..]) + post;
      PackStep(fields, post);
      SuffixSplits(data, offs, [fields[0].size], fields[0].bytes + rest);
      SuffixSplits(data, offs + 1, fields[0].bytes, rest);
      PackIsWritten(data, Behind(offs, fields[0]), fields[1..], post);
    }
  }

  lemma {:induction false} WrittenAhead(data: seq<byte>, offs: nat, fields: seq<Field>, end: nat)
    requires Written(data, offs, fields, end)
    ensures offs < end
    decreases |fields|
  {
    if fields != [] { WrittenAhead(data, Behind(offs, fields[0]), fields[1..], end); }
  }

  lemma FromMiddle(pre: seq<byte>, s: seq<byte>, post: seq<byte>)
    ensures (pre + s + post)[|pre|..] == s + post
  {
  }

  lemma PackedBetween(pre: seq<byte>, fields: seq<Field>, post: seq<byte>)
    ensures Written(pre + Pack(fields) + post, |pre|, fields, |pre| + |Pack(fields)|)
  {
    FromMiddle(pre, Pack(fields), post);
    PackIsWritten(pre + Pack(fields) + post, |pre|, fields, post);
  }

  /** The reader takes as many bytes as the field has characters. */
  lemma ReadsField(data: seq<byte>, offs: nat, field: Field)
    requires FieldAt(data, offs, field) && 0 < field.size <= |field.bytes|
    ensures Parts(data, offs) == [field.bytes[..field.size]] + Parts(data, offs + 1 + field.size)
    ensures End(data, offs) == End(data, offs + 1 + field.size)
  {
    assert data[offs + 1..offs + 1 + field.size] == data[offs + 1..Behind(offs, field)][..field.size];
  }

  // ----- From text to fields and back -----

  /** The labels that survive: those with something in them and one byte for each character. */
  predicate Plain(labels: seq<text>) {
    forall i :: 0 <= i < |labels| ==> labels[i] != [] && Ascii(labels[i])
  }

  /** The reader goes on to the end, with what was written. */
  predicate ReadsBack(data: seq<byte>, offs: nat, res: text, labels: seq<text>, end: nat) {
    && End(data, offs) == Some(end)
    && Gather(res, Parts(data, offs)) == if labels == [] then Some(res) else Some(Extend(res, Join(labels)))
  }

  lemma FieldsTail(labels: seq<text>)
    requires labels != [] && Fits(labels)
    ensures Fields(labels)[0] == Field(|labels[0]|, Encode(labels[0]))
    ensures Fits(labels[1..]) && Fields(labels)[1..] == Fields(labels[1..])
  {
  }

  lemma ExtendJoin(res: text, labels: seq<text>)
    requires |labels| > 1 && labels[0] != []
    ensures Extend(Extend(res, labels[0]), Join(labels[1..])) == Extend(res, Join(labels))
  {
    if res != [] {
      assert res + [DOT] + labels[0] + [DOT] + Join(labels[1..])
             == res + [DOT] + (labels[0] + [DOT] + Join(labels[1..]));
    }
  }

  /** A plain label is read as it was written, and the reader ends up behind it. */
  lemma ReadsPlain(data: seq<byte>, offs: nat, res: text, word: text)
    requires 0 < |word| <= 255 && Ascii(word) && FieldAt(data, offs, Field(|word|, Encode(word)))
    ensures var next := Behind(offs, Field(|word|, Encode(word)));
            && End(data, offs) == End(data, next)
            && Gather(res, Parts(data, offs)) == Gather(Extend(res, word), Parts(data, next))
  {
    EncodeLength(word);
    ReadsField(data, offs, Field(|word|, Encode(word)));
    assert Encode(word)[..|word|] == Encode(word);
    DecodeEncode(word);
    GatherCons(res, Encode(word), Parts(data, offs + 1 + |word|));
  }

  // ----- Other labels are not read back -----

  /** What has been gathered stays, and a dot follows it if anything does. */
  lemma {:induction false} GatherGrows(res: text, parts: seq<seq<byte>>)
    requires res != [] && Gather(res, parts).Some?
    ensures Gather(res, parts).value == res || res + [DOT] <= Gather(res, parts).value
    decreases |parts|
  {
    if parts != [] { GatherGrows(Extend(res, Decode(parts[0]).value), parts[1..]); }
  }

  /** Text that stops inside of a label is not all of the text, and is not followed by a dot. */
  lemma CutIsSeen(front: text, part: text, word: text, whole: text)
    requires DOT !in word && part < word && front + word <= whole
    ensures front + part != whole && !(front + part + [DOT] <= whole)
  {
    var n := |front| + |part|;
    assert whole[n] == (front + word)[n] == word[|part|];
  }

  function Prefix(res: text): text {
    if res == [] then [] else res + [DOT]
  }

  /** A label that takes more bytes than it has characters is cut short. */
  lemma CutLabel(res: text, part: text, labels: seq<text>, rest: seq<seq<byte>>)
    requires labels != [] && DOT !in labels[0] && [] < part < labels[0]
    ensures Gather(Extend(res, part), rest) != Some(Extend(res, Join(labels)))
  {
    var whole := Extend(res, Join(labels));
    assert Extend(res, part) == Prefix(res) + part;
    assert Prefix(res) + labels[0] <= whole;
    CutIsSeen(Prefix(res), part, labels[0], whole);
    if Gather(Extend(res, part), rest).Some? { GatherGrows(Extend(res, part), rest); }
  }

  lemma WidePart(res: text, labels: seq<text>, rest: seq<seq<byte>>)
    requires labels != [] && DOT !in labels[0] && labels[0] != [] && |labels[0]| < |Encode(labels[0])|
    ensures Gather(res, [Encode(labels[0])[..|labels[0]|]] + rest) != Some(Extend(res, Join(labels)))
  {
    var part := Encode(labels[0])[..|labels[0]|];
    GatherCons(res, part, rest);
    if Decode(part).Some? {
      var read := Decode(part).value;
      EncodeDecode(part);
      EncodePrefix(read, labels[0]);
      assert |Encode(read)| < |Encode(labels[0])|;
      CutLabel(res, read, labels, rest);
    }
  }

  lemma WideLabel(data: seq<byte>, offs: nat, res: text, labels: seq<text>, end: nat)
    requires labels != [] && DOT !in labels[0] && 0 < |labels[0]| <= 255 && !Ascii(labels[0])
    requires FieldAt(data, offs, Field(|labels[0]|, Encode(labels[0])))
    ensures !ReadsBack(data, offs, res, labels, end)
  {
    var field := Field(|labels[0]|, Encode(labels[0]));
    EncodeLength(labels[0]);
    ReadsField(data, offs, field);
    WidePart(res, labels, Parts(data, offs + 1 + field.size));
  }

  /** The labels written are read back, with whatever came before them, exactly if they are plain. */
  lemma {:induction false} ReadBackIff(data: seq<byte>, offs: nat, res: text, labels: seq<text>, end: nat)
    requires Fits(labels) && NoDots(labels) && Written(data, offs, Fields(labels), end)
    ensures ReadsBack(data, offs, res, labels, end) <==> Plain(labels)
    decreases |labels|
  {
    if labels != [] {
      FieldsTail(labels);
      var word := labels[0];
      var next := Behind(offs, Fields(labels)[0]);
      if word == [] {
        WrittenAhead(data, next, Fields(labels)[1..], end);
      } else if !Ascii(word) {
        WideLabel(data, offs, res, labels, end);
      } else {
        ReadsPlain(data, offs, res, word);
        ReadBackIff(data, next, Extend(res, word), labels[1..], end);
        if |labels| > 1 { ExtendJoin(res, labels); }
        assert Plain(labels) <==> Plain(labels[1..]);
      }
    }
  }

  // ----- Names -----

  lemma WrittenRoundTripIff(data: seq<byte>, offs: nat, s: text, end: nat)
    requires Fits(Split(s)) && Written(data, offs, Fields(Split(s)), end)
    ensures Read(data, offs) == Name(s, end) <==> Plain(Split(s))
  {
    JoinSplit(s);
    SplitHasNoDots(s);
    ReadBackIff(data, offs, [], Split(s), end);
  }

  /** A name written at any place in any message is read back, up to just behind its terminator, if
      and only if none of its labels is empty or has a character outside of ASCII. */
  lemma NameRoundTripIff(pre: seq<byte>, s: text, post: seq<byte>)
    requires Fits(Split(s))
    ensures Read(pre + Encoded(s) + post, |pre|) == Name(s, |pre| + |Encoded(s)|) <==> Plain(Split(s))
  {
    var fields := Fields(Split(s));
    var data, end := pre + Pack(fields) + post, |pre| + |Pack(fields)|;
    assert Written(data, |pre|, fields, end) by { PackedBetween(pre, fields, post); }
    assert Read(data, |pre|) == Name(s, end) <==> Plain(Split(s)) by { WrittenRoundTripIff(data, |pre|, s, end); }
  }

  /** A character of two bytes is cut in the middle. */
  lemma WideNameLost()
    ensures Pack(Fields([[0xE9]])) == [1, 0xC3, 0xA9, 0]
    ensures Read([1, 0xC3, 0xA9, 0], 0) == Undecodable
  {
    FieldsTail([[0xE9]]);
    assert Encode([0xE9]) == [0xC3, 0xA9];
    assert Parts([1, 0xC3, 0xA9, 0], 0)[0] == [0xC3];
  }

  /** An empty label ends the name. */
  lemma EmptyLabelLost()
    ensures Pack(Fields([[97], [], [98]])) == [1, 97, 0, 1, 98, 0]
    ensures Read([1, 97, 0, 1, 98, 0], 0) == Name([97], 3)
  {
    FieldsTail([[97], [], [98]]);
    FieldsTail([[], [98]]);
    FieldsTail([[98]]);
    assert Encode([97]) == [97] && Encode([98]) == [98];
    assert [[97], [], [98]][1..] == [[], [98]] && [[], [98]][1..] == [[98]];
    var data: seq<byte> := [1, 97, 0, 1, 98, 0];
    assert Slice(data, 1, 1) == [97];
    assert Parts(data, 2) == [] && Parts(data, 0) == [[97]] + Parts(data, 2);
    DecodeEncode([97]);
    GatherCons([], [97], []);
  }

  // ----- Messages cut off -----

  /** The reader runs into the end of the message. */
  predicate RunsOut(data: seq<byte>, offs: nat, res: text) {
    End(data, offs) == None && Gather(res, Parts(data, offs)).Some?
  }

  lemma CutField(full: seq<byte>, offs: nat, field: Field, m: nat)
    requires FieldAt(full, offs, field) && 0 < field.size == |field.bytes|
    requires offs < m < Behind(offs, field)
    ensures Parts(full[..m], offs) == [field.bytes[..m - offs - 1]] + []
    ensures End(full[..m], offs) == None
  {
    var data := full[..m];
    assert data[offs] == field.size;
    assert data[offs + 1..] == full[offs + 1..Behind(offs, field)][..m - offs - 1];
    assert Slice(data, offs + 1, field.size) == field.bytes[..m - offs - 1];
  }

  lemma CutInside(full: seq<byte>, offs: nat, res: text, word: text, m: nat)
    requires 0 < |word| <= 255 && Ascii(word) && FieldAt(full, offs, Field(|word|, Encode(word)))
    requires offs < m < Behind(offs, Field(|word|, Encode(word)))
    ensures RunsOut(full[..m], offs, res)
  {
    EncodeLength(word);
    AsciiCut(word, m - offs - 1);
    CutField(full, offs, Field(|word|, Encode(word)), m);
    GatherCons(res, Encode(word)[..m - offs - 1], []);
  }

  lemma FieldCut(full: seq<byte>, offs: nat, field: Field, m: nat)
    requires FieldAt(full, offs, field) && Behind(offs, field) <= m <= |full|
    ensures FieldAt(full[..m], offs, field)
  {
    assert full[..m][offs + 1..Behind(offs, field)] == full[offs + 1..Behind(offs, field)];
  }

  lemma {:induction false} CutRunsOut(
      full: seq<byte>, offs: nat, res: text, labels: seq<text>, end: nat, m: nat)
    requires Fits(labels) && Plain(labels) && Written(full, offs, Fields(labels), end)
    requires offs <= m < end <= |full|
    ensures RunsOut(full[..m], offs, res)
    decreases |labels|
  {
    if labels != [] && offs < m {
      FieldsTail(labels);
      var word, field := labels[0], Fields(labels)[0];
      if m < Behind(offs, field) {
        CutInside(full, offs, res, word, m);
      } else {
        FieldCut(full, offs, field, m);
        ReadsPlain(full[..m], offs, res, word);
        CutRunsOut(full, Behind(offs, field), Extend(res, word), labels[1..], end, m);
      }
    }
  }

  /** A message cut off anywhere in a name gives no name: the reader finds the terminator missing. */
  lemma CutIsMissing(pre: seq<byte>, s: text, n: nat)
    requires Fits(Split(s)) && Plain(Split(s)) && n < |Encoded(s)|
    ensures Read(pre + Encoded(s)[..n], |pre|) == Missing
  {
    var packed := Encoded(s);
    var full := pre + packed + [];
    PackedBetween(pre, Fields(Split(s)), []);
    CutRunsOut(full, |pre|, [], Split(s), |pre| + |packed|, |pre| + n);
    assert full[..|pre| + n] == pre + packed[..n];
  }

  lemma PackSplits(fields: seq<Field>)
    requires fields != []
    ensures Pack(fields)[0] == fields[0].size && Pack(fields)[1..] == fields[0].bytes + Pack(fields[1..])
  {
  }

  lemma {:induction false} PackInjective(a: seq<text>, b: seq<text>)
    requires Fits(a) && Fits(b) && Pack(Fields(a)) == Pack(Fields(b))
    ensures a == b
    decreases |a|
  {
    if a != [] { PackSplits(Fields(a)); }
    if b != [] { PackSplits(Fields(b)); }
    if a != [] && b != [] {
      FieldsTail(a);
      FieldsTail(b);
      EncodePrefixFree(a[0], b[0], Pack(Fields(a)[1..]), Pack(Fields(b)[1..]));
      PackInjective(a[1..], b[1..]);
      assert a == [a[0]] + a[1..] && b == [b[0]] + b[1..];
    }
  }

  /** The writer loses nothing: different names are written differently, even those that the reader
      cannot read back. */
  lemma EncodedInjective(a: text, b: text)
    requires Fits(Split(a)) && Fits(Split(b)) && Encoded(a) == Encoded(b)
    ensures a == b
  {
    PackInjective(Split(a), Split(b));
    JoinSplit(a);
    JoinSplit(b);
  }
}
