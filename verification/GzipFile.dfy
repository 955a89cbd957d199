/**
 Random access over a decoder that only goes forward: a backward seek starts over, a
 forward one skips. The decoder draws the compressed bytes from the file underneath.
 */
module GzipFile {
  import opened Bytes

  /** More input never takes back output. */
  ghost predicate Extends(f: seq<Byte> -> seq<Byte>) {
    forall a, b :: a <= b ==> f(a) <= f(b)
  }

  /** What a decoder has put out once it was fed some bytes since it was started. */
  type Inflate = f: seq<Byte> -> seq<Byte> | Extends(f) witness (s: seq<Byte>) => s

  /** How much is asked for or given, as a function of position and demand. */
  type Portions = (nat, nat) -> nat

  /**
   Any such decoder: its whole state is what it was fed and how much of its output was
   taken. How much of what is ready it hands out at a time is its own choice.
   */
  class Decoder {
    const inflate: Inflate
    const portion: Portions
    var fed: seq<Byte>
    var at: nat

    ghost predicate Valid()
      reads this
    {
      at <= |inflate(fed)|
    }

    constructor (inflate: Inflate, portion: Portions)
      ensures Valid() && fed == [] && at == 0 && this.inflate == inflate && this.portion == portion
    {
      this.inflate, this.portion, fed, at := inflate, portion, [], 0;
    }

    method Restart()
      modifies this
      ensures Valid() && fed == [] && at == 0
    {
      fed, at := [], 0;
    }

    method Feed(bytes: seq<Byte>)
      requires Valid()
      modifies this`fed
      ensures Valid() && fed == old(fed) + bytes
    {
      assert fed <= fed + bytes;
      fed := fed + bytes;
    }

    /** Output ready to be taken: at least a byte of it if there is any, at most `wanted`. */
    method Take(wanted: nat) returns (piece: seq<Byte>)
      requires Valid() && wanted > 0
      modifies this`at
      ensures Valid() && at == old(at) + |piece| && piece == inflate(fed)[old(at)..at]
      ensures |piece| <= wanted && (piece == [] <==> old(at) == |inflate(fed)|)
    {
      var ready := |inflate(fed)| - at;
      var most := if wanted < ready then wanted else ready;
      var n := portion(at, wanted);
      if n < 1 { n := 1; }
      if n > most { n := most; }
      piece := inflate(fed)[at..at + n];
      at := at + n;
    }
  }

  /** What of the stream lies between `loc` and `loc + count`. */
  function Sliced(stream: seq<Byte>, loc: nat, count: nat): seq<Byte> {
    if loc >= |stream| then []
    else if loc + count <= |stream| then stream[loc..loc + count] else stream[loc..]
  }

  const SKIP: nat := 4096
  const CHUNK: nat := 65536

  class Handle {
    const decoder: Decoder
    /** The compressed file; how much the decoder asks of it at a time, and how much the file then gives. */
    const source: seq<Byte>
    const appetite: Portions
    const delivery: Portions
    /** The next byte of the file to hand to the decoder. */
    var srcPos: nat
    var decPos: nat

    /** The decoder has been fed exactly the file up to the recorded position. */
    ghost predicate Fed()
      reads this`srcPos, decoder
    {
      srcPos <= |source| && decoder.Valid() && decoder.fed == source[..srcPos]
    }

    /** And the recorded offset is where the decoder is in its output. */
    ghost predicate Valid()
      reads this`srcPos, this`decPos, decoder
    {
      Fed() && decPos == decoder.at
    }

    /** What the whole file decodes to. */
    ghost function Stream(): seq<Byte> {
      decoder.inflate(source)
    }

    lemma OutputIsStream()
      requires Fed()
      ensures decoder.inflate(decoder.fed) <= Stream() && decoder.at <= |Stream()|
    {
      assert decoder.fed <= source;
    }

    constructor (source: seq<Byte>, inflate: Inflate, appetite: Portions, delivery: Portions, portion: Portions)
      ensures Valid() && this.source == source && decoder.inflate == inflate && fresh(decoder) && decPos == 0
    {
      this.source, this.appetite, this.delivery, srcPos, decPos := source, appetite, delivery, 0, 0;
      decoder := new Decoder(inflate, portion);
    }

    /** The decoder's callback: the next bytes of the compressed file, none only at its end. */
    method SourceRead(wanted: nat) returns (bytes: seq<Byte>)
      requires srcPos <= |source| && wanted > 0
      modifies this`srcPos
      ensures srcPos == old(srcPos) + |bytes| <= |source| && |bytes| <= wanted && bytes == source[old(srcPos)..srcPos]
      ensures bytes == [] <==> old(srcPos) == |source|
    {
      var available := |source| - srcPos;
      var length := if wanted > available then available else wanted;
      if length == 0 {
        return [];
      }
      var got := delivery(srcPos, length);
      if got > length { got := length; }
      if got < 1 { got := 1; }
      bytes := source[srcPos..srcPos + got];
      srcPos := srcPos + got;
    }

    /** The decoder's next output, drawing on the file as long as it has none; nothing only at the end of the stream. */
    method Inflated(wanted: nat) returns (piece: seq<Byte>)
      requires Fed() && wanted > 0
      modifies this`srcPos, decoder
      ensures Fed() && |piece| <= wanted && decoder.at == old(decoder.at) + |piece| <= |Stream()|
      ensures piece == Stream()[old(decoder.at)..decoder.at]
      ensures piece == [] <==> old(decoder.at) == |Stream()|
    {
      piece := decoder.Take(wanted);
      OutputIsStream();
      while piece == []
        invariant Fed() && |piece| <= wanted && decoder.at == old(decoder.at) + |piece| <= |Stream()|
        invariant piece == Stream()[old(decoder.at)..decoder.at]
        invariant piece == [] ==> decoder.at == |decoder.inflate(decoder.fed)|
        decreases |source| - srcPos, |piece| == 0
      {
        var asked := appetite(srcPos, wanted);
        var bytes := SourceRead(if asked == 0 then 1 else asked);
        if bytes == [] {
          assert source[..srcPos] == source;
          return;
        }
        assert source[..srcPos] == decoder.fed + bytes;
        decoder.Feed(bytes);
        piece := decoder.Take(wanted);
        OutputIsStream();
      }
    }

    /** Starts over, at the start of the file. */
    method Reset()
      requires Fed()
      modifies this`srcPos, this`decPos, decoder
      ensures Valid() && srcPos == 0 && decPos == 0
    {
      srcPos, decPos := 0, 0;
      decoder.Restart();
    }

    /** Skips forward; stops short only at the end of the stream. */
    method Seek(loc: nat) returns (reached: bool)
      requires Valid()
      modifies this`srcPos, this`decPos, decoder
      ensures Valid() && decPos <= |Stream()|
      ensures reached <==> loc <= |Stream()|
      ensures decPos == if reached then loc else |Stream()|
    {
      hide decoder.Valid;
      if loc < decPos {
        Reset();
      }
      OutputIsStream();
      while decPos < loc
        invariant Valid() && decPos <= loc && decPos <= |Stream()|
        decreases |Stream()| - decPos
      {
        var gap := loc - decPos;
        var chunk := if gap > SKIP then SKIP else gap;
        var discard := Inflated(chunk);
        if discard == [] {
          return false;
        }
        decPos := decPos + |discard|;
      }
      return true;
    }

    /** A read anywhere is a slice of the stream, whatever was read before. */
    method Read(loc: nat, count: nat) returns (bytes: seq<Byte>)
      requires Valid()
      modifies this`srcPos, this`decPos, decoder
      ensures Valid() && bytes == Sliced(Stream(), loc, count)
    {
      hide decoder.Valid;
      var reached := Seek(loc);
      if !reached {
        return [];
      }
      bytes := [];
      var remaining := count;
      while remaining > 0
        invariant Valid() && 0 <= remaining <= count && decPos == loc + (count - remaining) <= |Stream()|
        invariant bytes == Stream()[loc..decPos]
        decreases remaining
      {
        var chunk := if remaining > CHUNK then CHUNK else remaining;
        var piece := Inflated(chunk);
        if piece == [] {
          break;
        }
        bytes := bytes + piece;
        remaining := remaining - |piece|;
        decPos := decPos + |piece|;
      }
      ghost var stream := Stream();
      assert decPos == |stream| ==> stream[loc..decPos] == stream[loc..];
      assert decPos == loc ==> stream[loc..decPos] == [];
    }
  }

  datatype Request = Request(loc: nat, count: nat)

  /** Any sequence of reads, in any order, returns the slices asked for. */
  method ReadAll(handle: Handle, requests: seq<Request>) returns (results: seq<seq<Byte>>)
    requires handle.Valid()
    modifies handle, handle.decoder
    ensures handle.Valid() && |results| == |requests|
    ensures forall i :: 0 <= i < |requests| ==>
                          results[i] == Sliced(handle.Stream(), requests[i].loc, requests[i].count)
  {
    results := [];
    for i := 0 to |requests|
      invariant handle.Valid() && |results| == i
      invariant forall j :: 0 <= j < i ==>
                              results[j] == Sliced(handle.Stream(), requests[j].loc, requests[j].count)
    {
      var bytes := handle.Read(requests[i].loc, requests[i].count);
      results := results + [bytes];
    }
  }
}
