/**
  The chunked message buffer (cjdns-bytes/src/message.rs:6-197): bytes are written at the front and
  read from the front. Chunks are filled from their end; the last chunk of the vector holds the
  front of the message, and emptied chunks are kept as spares.
 */
module Messages {
  import opened Wrappers

  datatype Overflow = Overflow

  class Chunk {
    const bytes: array<Byte>
    var offset: nat

    ghost predicate Valid()
      reads this
    {
      0 < bytes.Length && offset <= bytes.Length
    }

    /** The bytes in use: from the offset to the end. */
    ghost function Content(): seq<Byte>
      requires Valid()
      reads this, bytes
    {
      bytes[offset..]
    }

    constructor (size: nat)
      requires size > 0
      ensures Valid() && fresh(bytes) && bytes.Length == size && Content() == []
    {
      bytes := new Byte[size](_ => 0);
      offset := size;
    }

    function Len(): nat
      requires Valid()
      reads this
    {
      bytes.Length - offset
    }

    function Cap(): nat
      reads this
    {
      offset
    }

    method Discard(n: nat) returns (r: Result<nat, Overflow>)
      requires Valid()
      modifies this`offset
      ensures Valid()
      ensures r == if n <= |old(Content())| then Ok(n) else Err(Overflow)
      ensures Content() == if r.Ok? then old(Content())[n..] else old(Content())
    {
      if n > Len() {
        return Err(Overflow);
      }
      offset := offset + n;
      return Ok(n);
    }

    /** Moves the first n bytes to buf[from..from + n]. */
    method Pop(buf: array<Byte>, from: nat, n: nat) returns (r: Result<nat, Overflow>)
      requires Valid() && buf != bytes && from + n <= buf.Length
      modifies this`offset, buf
      ensures Valid()
      ensures r == if n <= |old(Content())| then Ok(n) else Err(Overflow)
      ensures r.Err? ==> Content() == old(Content()) && buf[..] == old(buf[..])
      ensures r.Ok? ==> Content() == old(Content())[n..]
      ensures r.Ok? ==> buf[..] == old(buf[..])[..from] + old(Content())[..n] + old(buf[..])[from + n..]
    {
      if n > Len() {
        return Err(Overflow);
      }
      forall i | 0 <= i < n {
        buf[from + i] := bytes[offset + i];
      }
      offset := offset + n;
      return Ok(n);
    }

    /** Puts the input in front of the content. */
    method Push(input: seq<Byte>) returns (r: Result<nat, Overflow>)
      requires Valid()
      modifies this`offset, bytes
      ensures Valid()
      ensures r == if |input| <= old(Cap()) then Ok(|input|) else Err(Overflow)
      ensures Content() == if r.Ok? then input + old(Content()) else old(Content())
      ensures Cap() == if r.Ok? then old(Cap()) - |input| else old(Cap())
    {
      if |input| > Cap() {
        return Err(Overflow);
      }
      offset := offset - |input|;
      forall i | 0 <= i < |input| {
        bytes[offset + i] := input[i];
      }
      return Ok(|input|);
    }
  }

  ghost function Arrays(cs: seq<Chunk>): set<array<Byte>> {
    set c | c in cs :: c.bytes
  }

  ghost predicate AllValid(cs: seq<Chunk>)
    reads cs
  {
    forall c :: c in cs ==> c.Valid()
  }

  /** The bytes of a stack of chunks: the last chunk comes first. */
  ghost function Flat(cs: seq<Chunk>): seq<Byte>
    requires AllValid(cs)
    reads cs, Arrays(cs)
  {
    if cs == [] then [] else cs[|cs| - 1].Content() + Flat(cs[..|cs| - 1])
  }

  /** A stack whose chunks are left alone keeps its bytes. */
  twostate lemma {:induction false} FlatKept(cs: seq<Chunk>)
    requires old(AllValid(cs)) && forall c :: c in cs ==> unchanged(c) && unchanged(c.bytes)
    ensures AllValid(cs) && Flat(cs) == old(Flat(cs))
  {
    if cs != [] {
      FlatKept(cs[..|cs| - 1]);
    }
  }

  ghost predicate Unique(cs: seq<Chunk>) {
    forall i, j :: 0 <= i < j < |cs| ==> cs[i] != cs[j]
  }

  /** No two chunks share their bytes. */
  ghost predicate Separate(cs: set<Chunk>) {
    forall c, d :: c in cs && d in cs && c != d ==> c.bytes != d.bytes
  }

  /** `n` bytes of `content` have been moved to the beginning of `buf`, giving `rest` and `now`. */
  ghost predicate Moved(content: seq<Byte>, buf: seq<Byte>, rest: seq<Byte>, now: seq<Byte>, n: nat) {
    n <= |content| && n <= |buf| && rest == content[n..] && now == content[..n] + buf[n..]
  }

  lemma MovedNone(content: seq<Byte>, buf: seq<Byte>)
    ensures Moved(content, buf, content, buf, 0)
  {
  }

  lemma MovedMore(content: seq<Byte>, buf: seq<Byte>, rest: seq<Byte>, now: seq<Byte>, n: nat, l: nat)
    requires Moved(content, buf, rest, now, n) && l <= |rest| && n + l <= |now|
    ensures Moved(content, buf, rest[l..], now[..n] + rest[..l] + now[n + l..], n + l)
  {
  }

  class Message {
    const chunkSz: nat
    var chunks: seq<Chunk>
    var spareChunks: seq<Chunk>
    ghost var owned: set<Chunk>
    ghost var Repr: set<object>

    /** Holds at every call, and also while one chunk has been taken out. */
    ghost predicate Stacked()
      reads this, owned
    {
      && this in Repr && owned <= Repr
      && (forall c :: c in owned ==> c.bytes in Repr)
      && Separate(owned)
      && (forall c :: c in chunks ==> c in owned && c !in spareChunks && c.Valid())
      && (forall c :: c in spareChunks ==> c in owned && c.Valid() && c.offset == c.bytes.Length)
      && Unique(chunks) && Unique(spareChunks)
    }

    ghost predicate Valid()
      reads this, Repr
    {
      this in Repr && owned <= Repr && Stacked()
    }

    ghost function Content(): seq<Byte>
      requires Valid()
      reads this, Repr
    {
      Flat(chunks)
    }

    constructor (chunkSz: nat)
      ensures Valid() && fresh(Repr) && Content() == []
    {
      this.chunkSz := chunkSz;
      chunks, spareChunks := [], [];
      owned := {};
      Repr := {this};
    }

    function ChunkSz(): (n: nat)
      ensures n > 0
    {
      if chunkSz > 0 then chunkSz else 4096
    }

    /** `c` has been taken out of both stacks. */
    ghost predicate Loose(c: Chunk)
      reads this, c
    {
      c in owned && c !in chunks && c !in spareChunks && c.Valid() && c in Repr && c.bytes in Repr
    }

    /** Changing a chunk that has been taken out does not change the message. */
    twostate lemma LooseChanged(c: Chunk)
      requires old(Valid() && Loose(c)) && unchanged(this)
      requires forall d :: d in owned && d != c ==> unchanged(d) && unchanged(d.bytes)
      ensures Valid() && Content() == old(Content())
    {
      FlatKept(chunks);
    }

    /** Takes the front chunk out. */
    method PopChunk() returns (chunk: Chunk)
      requires Valid() && chunks != []
      modifies this`chunks
      ensures Valid() && Loose(chunk)
      ensures chunks == old(chunks)[..|old(chunks)| - 1]
      ensures old(Content()) == old(chunk.Content()) + Content() && chunk.offset == old(chunk.offset)
    {
      var n := |chunks| - 1;
      chunk := chunks[n];
      ghost var rest := Flat(chunks[..n]);
      assert Content() == chunk.Content() + rest;
      chunks := chunks[..n];
      FlatKept(chunks);
    }

    /** Puts a chunk back at the front. */
    method PushChunk(chunk: Chunk)
      requires Valid() && Loose(chunk)
      modifies this`chunks
      ensures Valid() && chunks == old(chunks) + [chunk]
      ensures Content() == chunk.Content() + old(Content())
    {
      ghost var rest := Flat(chunks);
      chunks := chunks + [chunk];
      assert chunks[..|chunks| - 1] == old(chunks);
      FlatKept(old(chunks));
    }

    /** Keeps an emptied chunk for later. */
    method PushSpare(chunk: Chunk)
      requires Valid() && Loose(chunk) && chunk.offset == chunk.bytes.Length
      modifies this`spareChunks
      ensures Valid() && Content() == old(Content())
    {
      spareChunks := spareChunks + [chunk];
      FlatKept(chunks);
    }

    /** Takes a spare chunk. */
    method TakeSpareChunk() returns (chunk: Chunk)
      requires Valid() && spareChunks != []
      modifies this`spareChunks
      ensures Valid() && Loose(chunk) && chunk.Cap() > 0 && chunk.Content() == []
      ensures Content() == old(Content())
    {
      hide Flat;
      var n := |spareChunks| - 1;
      chunk := spareChunks[n];
      spareChunks := spareChunks[..n];
      assert chunk.Cap() == chunk.bytes.Length;
      FlatKept(chunks);
    }

    /** Makes a new chunk. */
    method NewChunk() returns (chunk: Chunk)
      requires Valid()
      modifies this`owned, this`Repr
      ensures Valid() && Repr >= old(Repr) && fresh(Repr - old(Repr))
      ensures Loose(chunk) && chunk.Cap() > 0 && chunk.Content() == []
      ensures Content() == old(Content())
    {
      hide Flat, Unique;
      chunk := new Chunk(ChunkSz());
      Repr := Repr + {chunk, chunk.bytes};
      owned := owned + {chunk};
      FlatKept(chunks);
    }

    /** Takes out a chunk that has room: the front chunk, a spare one or a new one. */
    method TakeWritableChunk() returns (chunk: Chunk)
      requires Valid()
      modifies this
      ensures Valid() && Repr >= old(Repr) && fresh(Repr - old(Repr))
      ensures Loose(chunk) && chunk.Cap() > 0
      ensures chunk.Content() + Content() == old(Content())
    {
      hide Stacked, Flat;
      if |chunks| > 0 {
        chunk := PopChunk();
        if chunk.Cap() > 0 {
          return;
        }
        PushChunk(chunk);
      }
      if |spareChunks| > 0 {
        chunk := TakeSpareChunk();
      } else {
        chunk := NewChunk();
      }
    }

    /** Writes to a chunk that has been taken out and has the room. */
    method PushLoose(chunk: Chunk, input: seq<Byte>)
      requires Valid() && Loose(chunk) && |input| <= chunk.Cap()
      modifies chunk`offset, chunk.bytes
      ensures Valid() && Content() == old(Content())
      ensures Loose(chunk) && chunk.Content() == input + old(chunk.Content())
    {
      hide Flat, Unique;
      var pushed := chunk.Push(input);
      assert pushed == Ok(|input|);
      LooseChanged(chunk);
    }

    /** Fills one chunk from the end of the buffer; `l` bytes are written. */
    method WriteChunk(buf: seq<Byte>) returns (l: nat)
      requires Valid() && buf != []
      modifies Repr
      ensures Valid() && Repr >= old(Repr) && fresh(Repr - old(Repr))
      ensures 0 < l <= |buf| && Content() == buf[|buf| - l..] + old(Content())
    {
      hide Flat, Stacked;
      var chunk := TakeWritableChunk();
      l := if |buf| >= chunk.Cap() then chunk.Cap() else |buf|;
      PushLoose(chunk, buf[|buf| - l..]);
      PushChunk(chunk);
    }

    /** Writes in front of the message. */
    method Write(buf: seq<Byte>) returns (n: nat)
      requires Valid()
      modifies Repr
      ensures Valid() && Repr >= old(Repr) && fresh(Repr - old(Repr))
      ensures n == |buf| && Content() == buf + old(Content())
    {
      hide Stacked, Flat;
      n := 0;
      var left := buf;
      while left != []
        invariant Valid() && Repr >= old(Repr) && fresh(Repr - old(Repr))
        invariant n + |left| == |buf| && left <= buf
        invariant buf + old(Content()) == left + Content()
        decreases |left|
      {
        var l := WriteChunk(left);
        n := n + l;
        assert left == left[..|left| - l] + left[|left| - l..];
        left := left[..|left| - l];
      }
    }

    /** Writes until all is written. */
    method WriteAll(buf: seq<Byte>)
      requires Valid()
      modifies Repr
      ensures Valid() && Repr >= old(Repr) && fresh(Repr - old(Repr))
      ensures Content() == buf + old(Content())
    {
      hide Stacked, Flat;
      var n := Write(buf);
    }

    /** Takes up to `n` bytes off the front chunk; says how many, and whether the chunk was used up. */
    method DiscardChunk(n: nat) returns (l: nat, usedUp: bool)
      requires Valid() && chunks != []
      modifies Repr
      ensures Valid() && Repr == old(Repr) && l <= n && l <= |old(Content())|
      ensures Content() == old(Content())[l..]
      ensures if usedUp then |chunks| < |old(chunks)| else l == n
    {
      hide Flat, Unique;
      var chunk := PopChunk();
      label Taken:
      var len := chunk.Len();
      l := if n >= len then len else n;
      usedUp := n >= len;
      var discarded := chunk.Discard(l);
      assert discarded == Ok(l);
      LooseChanged@Taken(chunk);
      if usedUp {
        PushSpare(chunk);
      } else {
        PushChunk(chunk);
      }
    }

    /** Reads from a chunk that has been taken out and has the bytes. */
    method PopLoose(chunk: Chunk, buf: array<Byte>, from: nat, n: nat)
      requires Valid() && Loose(chunk) && buf !in Repr && from + n <= buf.Length && n <= chunk.Len()
      modifies chunk`offset, buf
      ensures Valid() && Content() == old(Content())
      ensures Loose(chunk) && chunk.Content() == old(chunk.Content())[n..]
      ensures buf[..] == old(buf[..])[..from] + old(chunk.Content())[..n] + old(buf[..])[from + n..]
    {
      hide Flat, Unique;
      var popped := chunk.Pop(buf, from, n);
      assert popped == Ok(n);
      LooseChanged(chunk);
    }

    /** Moves bytes of the front chunk to buf[done..]; says how many, and whether the chunk was used up. */
    method ReadChunk(buf: array<Byte>, done: nat) returns (l: nat, usedUp: bool)
      requires Valid() && chunks != [] && buf !in Repr && done <= buf.Length
      modifies Repr, buf
      ensures Valid() && Repr == old(Repr) && done + l <= buf.Length && l <= |old(Content())|
      ensures Content() == old(Content())[l..]
      ensures buf[..] == old(buf[..])[..done] + old(Content())[..l] + old(buf[..])[done + l..]
      ensures if usedUp then |chunks| < |old(chunks)| else done + l == buf.Length
    {
      hide Flat, Stacked;
      var chunk := PopChunk();
      var len := chunk.Len();
      usedUp := buf.Length - done >= len;
      l := if usedUp then len else buf.Length - done;
      PopLoose(chunk, buf, done, l);
      if usedUp {
        assert chunk.Len() == 0;
        PushSpare(chunk);
      } else {
        assert chunk.Len() > 0;
        PushChunk(chunk);
      }
    }

    /** Reads from the front as much as the message has and the buffer takes. */
    method Read(buf: array<Byte>) returns (n: nat)
      requires Valid() && buf !in Repr
      modifies Repr, buf
      ensures Valid() && Repr == old(Repr)
      ensures Moved(old(Content()), old(buf[..]), Content(), buf[..], n)
      ensures n == buf.Length || Content() == []
    {
      hide Stacked, Moved;
      n := 0;
      MovedNone(Content(), buf[..]);
      while chunks != []
        invariant Valid() && Repr == old(Repr) && n <= buf.Length
        invariant Moved(old(Content()), old(buf[..]), Content(), buf[..], n)
        decreases |chunks|
      {
        ghost var rest, now := Content(), buf[..];
        var l, usedUp := ReadChunk(buf, n);
        MovedMore(old(Content()), old(buf[..]), rest, now, n, l);
        n := n + l;
        if !usedUp {
          break;
        }
      }
    }

    /** Drops bytes from the front; asking for too many drops all and is an error. */
    method Discard(bytes: nat) returns (r: Result<(), Overflow>)
      requires Valid()
      modifies Repr
      ensures Valid() && Repr == old(Repr)
      ensures r == if bytes <= |old(Content())| then Ok(()) else Err(Overflow)
      ensures Content() == if r.Ok? then old(Content())[bytes..] else []
    {
      hide Stacked;
      var left: nat := bytes;
      while chunks != []
        invariant Valid() && Repr == old(Repr) && left <= bytes
        invariant bytes - left <= |old(Content())| && Content() == old(Content())[bytes - left..]
        decreases |chunks|
      {
        var l, usedUp := DiscardChunk(left);
        left := left - l;
        if !usedUp {
          return Ok(());
        }
      }
      r := if left > 0 then Err(Overflow) else Ok(());
    }

    method Clear()
      requires Valid()
      modifies Repr
      ensures Valid() && Repr == old(Repr) && Content() == []
    {
      hide Stacked, Flat;
      var n := Len();
      var r := Discard(n);
      assert r.Ok?;
    }

    method Len() returns (n: nat)
      requires Valid()
      ensures n == |Content()|
    {
      n := 0;
      for i := 0 to |chunks|
        invariant n == |Flat(chunks[..i])|
      {
        assert chunks[..i + 1][..i] == chunks[..i];
        n := n + chunks[i].Len();
      }
      assert chunks[..|chunks|] == chunks;
    }

    /** All bytes of the message, front chunk first. */
    method AsVec() returns (vec: seq<Byte>)
      requires Valid()
      ensures vec == Content()
    {
      vec := [];
      var i := |chunks|;
      assert chunks[..i] == chunks;
      while i > 0
        invariant 0 <= i <= |chunks|
        invariant vec + Flat(chunks[..i]) == Content()
      {
        assert chunks[..i][..i - 1] == chunks[..i - 1];
        i := i - 1;
        vec := vec + chunks[i].bytes[chunks[i].offset..];
      }
    }
  }
}
