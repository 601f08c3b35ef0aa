/** The size-limited response body. */
module Response {
  import opened Prelude

  function Flatten(chunks: seq<seq<Byte>>): seq<Byte> {
    if chunks == [] then [] else chunks[0] + Flatten(chunks[1..])
  }

  lemma {:induction false} FlattenSplit(chunks: seq<seq<Byte>>, n: nat)
    requires n <= |chunks|
    ensures Flatten(chunks) == Flatten(chunks[..n]) + Flatten(chunks[n..])
  {
    if n == 0 {
      assert chunks[n..] == chunks && chunks[..n] == [];
    } else {
      FlattenSplit(chunks[1..], n - 1);
      assert chunks[..n][1..] == chunks[1..][..n - 1];
      assert chunks[1..][n - 1..] == chunks[n..];
    }
  }

  lemma FlattenOne(chunk: seq<Byte>)
    ensures Flatten([chunk]) == chunk
  {
  }

  datatype ResponseError = TooLarge(max: nat) | Encode

  class LimitBody {
    const max: nat
    var body: seq<Byte>
    var written: nat
    var exceeded: bool

    ghost predicate Valid()
      reads this
    {
      written == |body| <= max
    }

    constructor (max: nat)
      ensures Valid() && this.max == max && body == [] && !exceeded
    {
      this.max := max;
      body, written, exceeded := [], 0, false;
    }

    /** A chunk is taken whole or not at all. */
    method Write(chunk: seq<Byte>) returns (ok: bool)
      requires Valid()
      modifies this
      ensures Valid()
      ensures ok <==> |old(body)| + |chunk| <= max
      ensures body == if ok then old(body) + chunk else old(body)
      ensures exceeded == (old(exceeded) || !ok)
    {
      if |chunk| > (if written <= max then max - written else 0) {
        exceeded := true;
        return false;
      }
      written := written + |chunk|;
      body := body + chunk;
      return true;
    }

    /** The serialiser writing its chunks until one is refused: whatever the chunking, it gets through exactly when
        the whole fits, and then the body is the whole; otherwise the body is a prefix of it within the limit. */
    method WriteChunks(chunks: seq<seq<Byte>>) returns (ok: bool)
      requires Valid() && body == [] && !exceeded
      modifies this
      ensures Valid()
      ensures ok <==> |Flatten(chunks)| <= max
      ensures exceeded <==> !ok
      ensures ok ==> body == Flatten(chunks)
      ensures !ok ==> body <= Flatten(chunks) && |body| <= max
    {
      assert chunks[..0] == [];
      for n := 0 to |chunks|
        invariant Valid() && !exceeded
        invariant body == Flatten(chunks[..n])
      {
        FlattenSplit(chunks, n);
        FlattenSplit(chunks[..n + 1], n);
        assert chunks[..n + 1][..n] == chunks[..n] && chunks[..n + 1][n..] == [chunks[n]];
        FlattenOne(chunks[n]);
        FlattenSplit(chunks, n + 1);
        var taken := Write(chunks[n]);
        if !taken {
          return false;
        }
      }
      assert chunks[..|chunks|] == chunks;
      return true;
    }
  }

  /** `serialized_response` for a serialiser that emits `chunks`, then possibly fails on its own: a body that does
      not fit is TooLarge, whatever else is wrong with it. */
  method SerializedResponse(chunks: seq<seq<Byte>>, encodeFails: bool, max: nat)
    returns (r: Result<seq<Byte>, ResponseError>)
    ensures r == if |Flatten(chunks)| > max then Err(TooLarge(max))
                 else if encodeFails then Err(Encode) else Ok(Flatten(chunks))
  {
    var writer := new LimitBody(max);
    var ok := writer.WriteChunks(chunks);
    if ok && !encodeFails {
      return Ok(writer.body);
    }
    if writer.exceeded {
      return Err(TooLarge(max));
    }
    return Err(Encode);
  }
}
