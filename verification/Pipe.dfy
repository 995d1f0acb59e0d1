/** One direction of the stdio connection: what was written, how much of it the reader has taken in, in whatever
    chunks, and the reader's line buffer. */
module Pipes {
  import opened Framing

  datatype Pipe = Pipe(lines: seq<string>, read: nat, buffer: string) {

    function Stream(): string {
      Encode(lines)
    }

    ghost predicate Valid() {
      && (forall l :: l in lines ==> Framable(l))
      && read <= |Stream()|
      && buffer == Rest(Stream()[..read])
    }

    /** The messages the reader has been handed so far. */
    function Taken(): seq<string>
      requires read <= |Stream()|
    {
      Delivered(Stream()[..read])
    }

    function Write(line: string): Pipe {
      this.(lines := lines + [line])
    }

    /** The next chunk of `n` characters. */
    function Chunk(n: nat): string
      requires read + n <= |Stream()|
    {
      Stream()[read..read + n]
    }

    function Read(n: nat): Pipe
      requires read + n <= |Stream()|
    {
      this.(read := read + n, buffer := Rest(buffer + Chunk(n)))
    }

    /** The messages this chunk completes. */
    function Arrivals(n: nat): seq<string>
      requires read + n <= |Stream()|
    {
      Delivered(buffer + Chunk(n))
    }
  }

  const EMPTY := Pipe([], 0, "")

  lemma {:induction false} EncodeSnoc(lines: seq<string>, line: string)
    ensures Encode(lines + [line]) == Encode(lines) + line + "\n"
  {
    if lines == [] {
      assert lines + [line] == [line] && Encode([line]) == line + "\n" + Encode([]);
    } else {
      assert (lines + [line])[1..] == lines[1..] + [line];
      EncodeSnoc(lines[1..], line);
    }
  }

  lemma WriteKeepsValid(p: Pipe, line: string)
    requires p.Valid() && Framable(line)
    ensures p.Write(line).Valid() && p.Write(line).Taken() == p.Taken()
  {
    EncodeSnoc(p.lines, line);
    assert p.Write(line).Stream()[..p.read] == p.Stream()[..p.read];
  }

  lemma ReadKeepsValid(p: Pipe, n: nat)
    requires p.Valid() && p.read + n <= |p.Stream()|
    ensures p.Read(n).Valid() && p.Read(n).Taken() == p.Taken() + p.Arrivals(n)
  {
    var before := p.Stream()[..p.read];
    assert p.Stream()[..p.read + n] == before + p.Chunk(n);
    DeliveredAcross(before, p.Chunk(n));
  }

  /** The reader has been handed a prefix of what was written, in order. */
  lemma TakenIsPrefix(p: Pipe)
    requires p.Valid()
    ensures p.Taken() <= p.lines
    ensures p.read == |p.Stream()| ==> p.Taken() == p.lines
  {
    PrefixDeliversPrefix(p.lines, p.Stream()[..p.read]);
    if p.read == |p.Stream()| {
      assert p.Stream()[..p.read] == p.Stream();
      DecodeEncode(p.lines);
    }
  }

  lemma ArrivalsWereWritten(p: Pipe, n: nat)
    requires p.Valid() && p.read + n <= |p.Stream()|
    ensures forall l :: l in p.Arrivals(n) ==> l in p.lines
    ensures |p.Taken()| + |p.Arrivals(n)| <= |p.lines|
    ensures p.Arrivals(n) == p.lines[|p.Taken()|..|p.Taken()| + |p.Arrivals(n)|]
  {
    ReadKeepsValid(p, n);
    TakenIsPrefix(p.Read(n));
    var k, m := |p.Taken()|, |p.Arrivals(n)|;
    var all := p.Taken() + p.Arrivals(n);
    assert all == p.lines[..k + m];
    assert p.Arrivals(n) == all[k..];
  }
}
