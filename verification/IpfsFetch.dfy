/**
 Fetching a report by its content address: bounded streaming from one gateway,
 and the walk over the gateways.
 */
module IpfsFetch {
  import opened Wrappers

  newtype byte = x: int | 0 <= x < 256

  type Document = int

  /**
   What the stream's reader gives: a chunk, a read without a value, or an error
   (the connection or the timeout).
   */
  datatype Read = Chunk(bytes: seq<byte>) | NoValue | Broken

  datatype Header = Absent | Invalid | Length(n: int)

  datatype Response =
    | Unreachable
    | BadStatus
    | NoBody(contentLength: Header)
    | Streaming(contentLength: Header, pieces: seq<Read>)

  datatype Error = TooLarge | Network | InvalidLength | MissingBody | HashMismatch | NotJson | NoGateway

  /** Addressing and parsing are parameters; a limit of zero means no limit. */
  datatype Config = Config(maxBytes: nat, cidOf: seq<byte> -> string, parse: seq<byte> -> Option<Document>)

  predicate Exceeds(c: Config, n: int) {
    c.maxBytes > 0 && n > c.maxBytes
  }

  // ---- Specification ----

  function Content(pieces: seq<Read>): seq<byte> {
    if pieces == [] then []
    else Content(pieces[..|pieces| - 1]) + (if pieces[|pieces| - 1].Chunk? then pieces[|pieces| - 1].bytes else [])
  }

  /**
   The first read that ends the stream early, if any: an error, or the chunk
   that takes the content over the limit.
   */
  predicate EndsEarly(c: Config, pieces: seq<Read>, i: nat)
    requires i < |pieces|
  {
    pieces[i].Broken? || (pieces[i].Chunk? && Exceeds(c, |Content(pieces[..i + 1])|))
  }

  function Streamed(c: Config, pieces: seq<Read>, i: nat): Result<seq<byte>, Error>
    requires i <= |pieces|
    decreases |pieces| - i
  {
    if i == |pieces| then Ok(Content(pieces))
    else if EndsEarly(c, pieces, i) then Err(if pieces[i].Broken? then Network else TooLarge)
    else Streamed(c, pieces, i + 1)
  }

  function LengthCheck(c: Config, h: Header): Option<Error> {
    match h
    case Absent => None
    case Invalid => Some(InvalidLength)
    case Length(n) => if Exceeds(c, n) then Some(TooLarge) else None
  }

  function Verified(c: Config, cid: string, content: seq<byte>): Result<Document, Error> {
    if c.cidOf(content) != cid then Err(HashMismatch)
    else if c.parse(content).None? then Err(NotJson)
    else Ok(c.parse(content).value)
  }

  function Outcome(c: Config, cid: string, r: Response): Result<Document, Error> {
    match r
    case Unreachable => Err(Network)
    case BadStatus => Err(Network)
    case NoBody(h) => Err(if LengthCheck(c, h).Some? then LengthCheck(c, h).value else MissingBody)
    case Streaming(h, pieces) =>
      if LengthCheck(c, h).Some? then Err(LengthCheck(c, h).value)
      else if Streamed(c, pieces, 0).Err? then Err(Streamed(c, pieces, 0).error)
      else Verified(c, cid, Streamed(c, pieces, 0).value)
  }

  lemma {:induction false} ContentGrows(pieces: seq<Read>, i: nat, j: nat)
    requires i <= j <= |pieces|
    ensures Content(pieces[..i]) <= Content(pieces[..j])
    decreases j
  {
    if i < j {
      ContentGrows(pieces, i, j - 1);
      assert pieces[..j][..j - 1] == pieces[..j - 1];
    }
  }

  /**
   However an unbroken stream is cut into chunks, it is refused exactly when
   the whole content is over the limit, and otherwise read in full.
   */
  lemma {:induction false} ChunkingIsIrrelevant(c: Config, pieces: seq<Read>, i: nat)
    requires i <= |pieces| && Broken !in pieces
    requires !Exceeds(c, |Content(pieces[..i])|)
    ensures Streamed(c, pieces, i) == if Exceeds(c, |Content(pieces)|) then Err(TooLarge) else Ok(Content(pieces))
    decreases |pieces| - i
  {
    assert pieces[..|pieces|] == pieces;
    if i < |pieces| {
      ContentGrows(pieces, i + 1, |pieces|);
      if !EndsEarly(c, pieces, i) {
        assert pieces[..i + 1][..i] == pieces[..i];
        ChunkingIsIrrelevant(c, pieces, i + 1);
      }
    }
  }

  lemma {:induction false} StreamedIsContent(c: Config, pieces: seq<Read>, i: nat)
    requires i <= |pieces| && !Exceeds(c, |Content(pieces[..i])|)
    ensures Streamed(c, pieces, i).Ok? ==> Streamed(c, pieces, i).value == Content(pieces) && !Exceeds(c, |Content(pieces)|)
    decreases |pieces| - i
  {
    assert pieces[..|pieces|] == pieces;
    if i < |pieces| && !EndsEarly(c, pieces, i) {
      assert pieces[..i + 1][..i] == pieces[..i];
      StreamedIsContent(c, pieces, i + 1);
    }
  }

  /**
   A document accepted from a gateway is within the limit and has the address
   that was asked for.
   */
  lemma AcceptedIsVerified(c: Config, cid: string, r: Response)
    requires Outcome(c, cid, r).Ok?
    ensures r.Streaming? && !Exceeds(c, |Content(r.pieces)|)
    ensures c.cidOf(Content(r.pieces)) == cid && c.parse(Content(r.pieces)) == Some(Outcome(c, cid, r).value)
  {
    StreamedIsContent(c, r.pieces, 0);
  }

  /** The header is readable and does not promise more than the limit. */
  ghost predicate HeaderIsFine(c: Config, h: Header) {
    h != Invalid && (h.Length? ==> c.maxBytes == 0 || h.n <= c.maxBytes)
  }

  /** A gateway's answer is accepted exactly when everything about it is right. */
  lemma AcceptedIff(c: Config, cid: string, r: Response)
    ensures Outcome(c, cid, r).Ok? <==>
              && r.Streaming? && HeaderIsFine(c, r.contentLength) && Broken !in r.pieces
              && (c.maxBytes == 0 || |Content(r.pieces)| <= c.maxBytes)
              && c.cidOf(Content(r.pieces)) == cid && c.parse(Content(r.pieces)) != None
  {
    if r.Streaming? {
      assert r.pieces[..0] == [];
      if Broken !in r.pieces {
        ChunkingIsIrrelevant(c, r.pieces, 0);
      } else {
        BrokenIsRefused(c, r.pieces, 0);
      }
    }
  }

  lemma {:induction false} BrokenIsRefused(c: Config, pieces: seq<Read>, i: nat)
    requires i <= |pieces| && Broken in pieces[i..]
    ensures Streamed(c, pieces, i).Err?
    decreases |pieces| - i
  {
    if !EndsEarly(c, pieces, i) {
      assert pieces[i..] == [pieces[i]] + pieces[i + 1..];
      BrokenIsRefused(c, pieces, i + 1);
    }
  }

  /** An unbroken answer is too large exactly when its header or, behind a fine header, its content says so. */
  lemma TooLargeIff(c: Config, cid: string, r: Response)
    requires r.Streaming? ==> Broken !in r.pieces
    ensures Outcome(c, cid, r) == Err(TooLarge) <==>
              && (r.Streaming? || r.NoBody?) && c.maxBytes > 0
              && ((r.contentLength.Length? && r.contentLength.n > c.maxBytes)
                  || (r.Streaming? && HeaderIsFine(c, r.contentLength) && |Content(r.pieces)| > c.maxBytes))
  {
    if r.Streaming? {
      assert r.pieces[..0] == [];
      ChunkingIsIrrelevant(c, r.pieces, 0);
    }
  }

  // ---- Gateways ----

  /**
   The gateway whose answer ends the walk: the first to succeed or to send a
   report that is too large.
   */
  predicate Decides(c: Config, cid: string, r: Response) {
    Outcome(c, cid, r).Ok? || Outcome(c, cid, r) == Err(TooLarge)
  }

  ghost predicate IsWalk(c: Config, cid: string, responses: seq<Response>, result: Result<Document, Error>) {
    if exists i | 0 <= i < |responses| :: Decides(c, cid, responses[i]) then
      exists i | 0 <= i < |responses| ::
        && Decides(c, cid, responses[i])
        && (forall j | 0 <= j < i :: !Decides(c, cid, responses[j]))
        && result == Outcome(c, cid, responses[i])
    else
      result == if responses == [] then Err(NoGateway) else Outcome(c, cid, responses[|responses| - 1])
  }

  /**
   Whatever the gateways answer, a returned document is the one at that
   address: two walks that succeed agree, unless two contents share an address.
   */
  lemma SameAddressSameDocument(
    c: Config, cid: string, first: seq<Response>, second: seq<Response>,
    a: Result<Document, Error>, b: Result<Document, Error>)
    requires IsWalk(c, cid, first, a) && IsWalk(c, cid, second, b)
    requires forall x, y | c.cidOf(x) == cid && c.cidOf(y) == cid :: x == y
    ensures a.Ok? && b.Ok? ==> a == b
  {
    if a.Ok? && b.Ok? {
      WalkIsVerified(c, cid, first, a);
      WalkIsVerified(c, cid, second, b);
    }
  }

  lemma WalkIsVerified(c: Config, cid: string, responses: seq<Response>, result: Result<Document, Error>)
    requires IsWalk(c, cid, responses, result) && result.Ok?
    ensures exists content :: c.cidOf(content) == cid && c.parse(content) == Some(result.value) && !Exceeds(c, |content|)
  {
    if responses == [] {
      assert false;
    } else {
      assert exists i | 0 <= i < |responses| :: Outcome(c, cid, responses[i]) == result;
      var i :| 0 <= i < |responses| && Outcome(c, cid, responses[i]) == result;
      AcceptedIsVerified(c, cid, responses[i]);
    }
  }

  // ---- The service ----

  /** Copies the chunks one after another into a buffer of their total size. */
  method Assemble(chunks: seq<seq<byte>>, receivedBytes: nat) returns (content: array<byte>)
    requires receivedBytes == |Joined(chunks)|
    ensures fresh(content) && content[..] == Joined(chunks)
  {
    content := new byte[receivedBytes];
    var offset := 0;
    for i := 0 to |chunks|
      invariant offset == |Joined(chunks[..i])| <= receivedBytes
      invariant content[..offset] == Joined(chunks[..i])
    {
      JoinedOneMore(chunks, i);
      Set(content, chunks[i], offset);
      assert content[..offset + |chunks[i]|] == content[..offset] + content[offset..offset + |chunks[i]|];
      offset := offset + |chunks[i]|;
    }
    assert chunks[..|chunks|] == chunks && content[..receivedBytes] == content[..];
  }

  /** `TypedArray.set`: overwrite from `offset` on. */
  method Set(a: array<byte>, chunk: seq<byte>, offset: nat)
    requires offset + |chunk| <= a.Length
    modifies a
    ensures a[..] == old(a[..offset]) + chunk + old(a[offset + |chunk|..])
    ensures a[..offset] == old(a[..offset]) && a[offset..offset + |chunk|] == chunk
  {
    for k := 0 to |chunk|
      invariant a[..offset] == old(a[..offset]) && a[offset..offset + k] == chunk[..k]
      invariant a[offset + |chunk|..] == old(a[offset + |chunk|..])
    {
      a[offset + k] := chunk[k];
    }
    assert a[..] == a[..offset] + a[offset..offset + |chunk|] + a[offset + |chunk|..];
  }

  function Joined(chunks: seq<seq<byte>>): seq<byte> {
    if chunks == [] then [] else Joined(chunks[..|chunks| - 1]) + chunks[|chunks| - 1]
  }

  lemma JoinedOneMore(chunks: seq<seq<byte>>, i: nat)
    requires i < |chunks|
    ensures Joined(chunks[..i + 1]) == Joined(chunks[..i]) + chunks[i]
    ensures |Joined(chunks[..i + 1])| <= |Joined(chunks)|
  {
    assert chunks[..i + 1][..i] == chunks[..i];
    JoinedGrows(chunks, i + 1);
  }

  lemma {:induction false} JoinedGrows(chunks: seq<seq<byte>>, i: nat)
    requires i <= |chunks|
    ensures |Joined(chunks[..i])| <= |Joined(chunks)|
    decreases |chunks|
  {
    if i < |chunks| {
      assert chunks[..|chunks| - 1][..i] == chunks[..i];
      JoinedGrows(chunks[..|chunks| - 1], i);
    } else {
      assert chunks[..i] == chunks;
    }
  }

  /** Reads the stream; `held` is the most bytes it ever kept. */
  method ReadAll(c: Config, pieces: seq<Read>) returns (result: Result<seq<byte>, Error>, held: nat)
    ensures result == Streamed(c, pieces, 0)
    ensures !Exceeds(c, held)
    ensures result.Ok? ==> held == |result.value|
  {
    var chunks, receivedBytes := [], 0;
    held := 0;
    for i := 0 to |pieces|
      invariant Streamed(c, pieces, i) == Streamed(c, pieces, 0)
      invariant Joined(chunks) == Content(pieces[..i]) && receivedBytes == held == |Joined(chunks)|
      invariant !Exceeds(c, held)
    {
      assert pieces[..i + 1][..i] == pieces[..i];
      match pieces[i] {
        case Broken =>
          return Err(Network), held;
        case NoValue =>
        case Chunk(value) =>
          assert (chunks + [value])[..|chunks|] == chunks;
          receivedBytes := receivedBytes + |value|;
          if c.maxBytes > 0 && receivedBytes > c.maxBytes {
            return Err(TooLarge), held;
          }
          chunks := chunks + [value];
          held := receivedBytes;
      }
    }
    assert pieces[..|pieces|] == pieces;
    var fileContent := Assemble(chunks, receivedBytes);
    result := Ok(fileContent[..]);
  }

  method FetchIPFSWithLimitAndVerify(c: Config, cid: string, response: Response) returns (result: Result<Document, Error>)
    ensures result == Outcome(c, cid, response)
  {
    if response.Unreachable? || response.BadStatus? {
      return Err(Network);
    }
    match response.contentLength {
      case Absent =>
      case Invalid =>
        return Err(InvalidLength);
      case Length(n) =>
        if c.maxBytes > 0 && n > c.maxBytes {
          return Err(TooLarge);
        }
    }
    if response.NoBody? {
      return Err(MissingBody);
    }
    var content, _ := ReadAll(c, response.pieces);
    if content.Err? {
      return Err(content.error);
    }
    if c.cidOf(content.value) != cid {
      return Err(HashMismatch);
    }
    var document := c.parse(content.value);
    if document.None? {
      return Err(NotJson);
    }
    result := Ok(document.value);
  }

  /** One response per configured gateway, in order. */
  method FetchIPFS(c: Config, cid: string, responses: seq<Response>) returns (result: Result<Document, Error>)
    ensures IsWalk(c, cid, responses, result)
    ensures forall i | 0 <= i < |responses| && (Outcome(c, cid, responses[i]).Ok? || Outcome(c, cid, responses[i]) == Err(TooLarge))
                       && (forall j | 0 <= j < i :: Outcome(c, cid, responses[j]).Err? && Outcome(c, cid, responses[j]) != Err(TooLarge)) ::
              result == Outcome(c, cid, responses[i])
  {
    result := Err(NoGateway);
    for i := 0 to |responses|
      invariant forall j | 0 <= j < i :: !Decides(c, cid, responses[j])
      invariant result == if i == 0 then Err(NoGateway) else Outcome(c, cid, responses[i - 1])
    {
      result := FetchIPFSWithLimitAndVerify(c, cid, responses[i]);
      if result.Ok? || result.error == TooLarge {
        return;
      }
    }
  }
}
