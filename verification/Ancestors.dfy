/** Block hashes: what the host records while it executes a block, and the header chain from which
    the guest answers. */
module Ancestors {
  import opened Basics

  /** Block numbers have 64 bits. */
  const U64_LIMIT := 0x1_0000_0000_0000_0000

  /** A block header; `rest` is everything that this code only passes on. */
  datatype Header = Header(number: nat, parentHash: Hash, stateRoot: Hash, rest: Bytes)

  /** A header together with its hash. */
  datatype Sealed = Sealed(header: Header, hash: Hash)

  /** How headers are hashed. */
  type HeaderHash = Header -> Hash

  function Seal(H: HeaderHash, h: Header): Sealed {
    Sealed(h, H(h))
  }

  /** Subtraction of one in 64 bits, without overflow checks. */
  function Before(n: nat): nat {
    if n == 0 then U64_LIMIT - 1 else n - 1
  }

  function After(n: nat): nat {
    (n + 1) % U64_LIMIT
  }

  datatype Checked =
    | Hashes(byNumber: map<nat, Hash>)
    | InvalidBlockNumber(expected: nat, actual: nat)
    | InvalidParentHash(found: Hash, linked: Hash)

  /** The header names its parent, by number and by hash. */
  predicate Links(child: Sealed, parent: Sealed) {
    parent.header.number == Before(child.header.number) && parent.hash == child.header.parentHash
  }

  /** Checks the headers, the youngest first, and collects the hashes of all but the first one. They are
      accepted just when every header has the number and the hash that the one before it names; the error
      is that of the first header that has not. */
  method CheckHeaders(headers: seq<Sealed>) returns (r: Checked)
    ensures r.Hashes? <==> forall i :: 0 <= i && i + 1 < |headers| ==>
      && headers[i + 1].header.number == (if headers[i].header.number == 0 then U64_LIMIT - 1 else headers[i].header.number - 1)
      && headers[i + 1].hash == headers[i].header.parentHash
    ensures r.Hashes? ==>
      && (forall n :: n in r.byNumber <==> exists i :: 0 < i < |headers| && headers[i].header.number == n)
      && (forall n :: n in r.byNumber ==>
            exists i :: 0 < i < |headers| && headers[i].header.number == n && headers[i].hash == r.byNumber[n])
    ensures r.InvalidBlockNumber? ==> exists i: nat :: (
      && i + 1 < |headers| && (forall j :: 0 <= j < i ==> Links(headers[j], headers[j + 1]))
      && headers[i + 1].header.number != (if headers[i].header.number == 0 then U64_LIMIT - 1 else headers[i].header.number - 1)
      && r.expected == (headers[i + 1].header.number + 1) % U64_LIMIT && r.actual == headers[i].header.number)
    ensures r.InvalidParentHash? ==> exists i: nat :: (
      && i + 1 < |headers| && (forall j :: 0 <= j < i ==> Links(headers[j], headers[j + 1]))
      && headers[i + 1].header.number == (if headers[i].header.number == 0 then U64_LIMIT - 1 else headers[i].header.number - 1)
      && headers[i + 1].hash != headers[i].header.parentHash
      && r.found == headers[i + 1].hash && r.linked == headers[i].header.parentHash)
  {
    var byNumber: map<nat, Hash> := map[];
    var i := 0;
    while i + 1 < |headers|
      invariant 0 <= i && (|headers| > 0 ==> i < |headers|) && (|headers| == 0 ==> i == 0)
      invariant forall j :: 0 <= j < i ==> Links(headers[j], headers[j + 1])
      invariant forall n :: n in byNumber <==> exists j :: 0 < j <= i && j < |headers| && headers[j].header.number == n
      invariant forall n :: n in byNumber ==>
        exists j :: 0 < j <= i && j < |headers| && headers[j].header.number == n && headers[j].hash == byNumber[n]
    {
      var child, parent := headers[i], headers[i + 1];
      if parent.header.number != Before(child.header.number) {
        return InvalidBlockNumber(After(parent.header.number), child.header.number);
      }
      if parent.hash != child.header.parentHash {
        return InvalidParentHash(parent.hash, child.header.parentHash);
      }
      byNumber := byNumber[parent.header.number := child.header.parentHash];
      i := i + 1;
    }
    forall j | 0 <= j && j + 1 < |headers|
      ensures Links(headers[j], headers[j + 1])
    {
    }
    r := Hashes(byNumber);
  }

  /** What the provider answers for a block number. */
  type Provider = nat -> Option<Sealed>

  /** The provider serves a hash-linked chain up to the given block. */
  ghost predicate Chain(H: HeaderHash, provider: Provider, top: nat) {
    forall n :: 0 <= n <= top && provider(n).Some? ==>
      && provider(n).value.header.number == n
      && provider(n).value.hash == H(provider(n).value.header)
      && (n > 0 && provider(n - 1).Some? ==> provider(n).value.header.parentHash == provider(n - 1).value.hash)
  }

  /** The headers from a block down to the oldest one, without gaps. */
  ghost predicate Collected(provider: Provider, blockNumber: nat, oldest: nat, headers: seq<Header>) {
    && oldest <= blockNumber && |headers| == blockNumber - oldest + 1
    && forall i :: 0 <= i < |headers| ==>
         provider(blockNumber - i).Some? && headers[i] == provider(blockNumber - i).value.header
  }

  class BasicRpcDb {
    const blockNumber: nat
    var oldestAncestor: nat

    constructor (blockNumber: nat)
      ensures this.blockNumber == blockNumber && oldestAncestor == blockNumber
    {
      this.blockNumber := blockNumber;
      oldestAncestor := blockNumber;
    }

    /** Fetches a block hash and records how far back requests reach; `None` if there is no such
        block. */
    method FetchBlockHash(provider: Provider, number: nat) returns (r: Option<Hash>)
      modifies this
      ensures r == match provider(number) case None => None case Some(block) => Some(block.hash)
      ensures oldestAncestor == if r.Some? && number < old(oldestAncestor) then number else old(oldestAncestor)
    {
      var block := provider(number);
      if block.None? {
        return None;
      }
      oldestAncestor := if number < oldestAncestor then number else oldestAncestor;
      r := Some(block.value.hash);
    }

    /** The headers from the block down to the oldest one requested; `None` if one is not found. */
    method AncestorHeaders(provider: Provider) returns (r: Option<seq<Header>>)
      requires oldestAncestor <= blockNumber
      ensures r.Some? <==> forall n :: oldestAncestor <= n <= blockNumber ==> provider(n).Some?
      ensures r.Some? ==> Collected(provider, blockNumber, oldestAncestor, r.value)
    {
      var headers := [];
      for height := blockNumber + 1 downto oldestAncestor
        invariant |headers| == blockNumber + 1 - height
        invariant forall n :: height <= n <= blockNumber ==> provider(n).Some?
        invariant forall i :: 0 <= i < |headers| ==>
          provider(blockNumber - i).Some? && headers[i] == provider(blockNumber - i).value.header
      {
        var block := provider(height);
        if block.None? {
          return None;
        }
        headers := headers + [block.value.header];
      }
      r := Some(headers);
    }
  }

  /** The block that is executed, then its recorded ancestors. */
  function SealedHeaders(H: HeaderHash, current: Header, ancestors: seq<Header>): (r: seq<Sealed>)
    ensures |r| == 1 + |ancestors|
    ensures r[0] == Seal(H, current) && forall i :: 0 <= i < |ancestors| ==> r[i + 1] == Seal(H, ancestors[i])
  {
    [Seal(H, current)] + seq(|ancestors|, i requires 0 <= i < |ancestors| => Seal(H, ancestors[i]))
  }

  function AnswerOf(provider: Provider, n: nat): Option<Hash> {
    match provider(n)
    case None => None
    case Some(block) => Some(block.hash)
  }

  /** Answers the block hash requests of a block on the host, and records how far back they reach. */
  method Record(provider: Provider, blockNumber: nat, requests: seq<nat>) returns (db: BasicRpcDb, answers: seq<Option<Hash>>)
    ensures fresh(db) && db.blockNumber == blockNumber
    ensures |answers| == |requests| && forall j :: 0 <= j < |requests| ==> answers[j] == AnswerOf(provider, requests[j])
    ensures IsOldest(db.oldestAncestor, blockNumber, requests, answers)
  {
    db := new BasicRpcDb(blockNumber);
    answers := [];
    for j := 0 to |requests|
      invariant fresh(db) && db.blockNumber == blockNumber
      invariant |answers| == j && forall i :: 0 <= i < j ==> answers[i] == AnswerOf(provider, requests[i])
      invariant IsOldest(db.oldestAncestor, blockNumber, requests[..j], answers)
    {
      ghost var before := db.oldestAncestor;
      var answer := db.FetchBlockHash(provider, requests[j]);
      OldestStep(before, blockNumber, requests[..j], answers, requests[j], answer);
      answers := answers + [answer];
      assert requests[..j + 1] == requests[..j] + [requests[j]];
    }
    assert requests[..|requests|] == requests;
  }

  lemma OldestStep(oldest: nat, blockNumber: nat, requests: seq<nat>, answers: seq<Option<Hash>>, n: nat, answer: Option<Hash>)
    requires |requests| == |answers| && IsOldest(oldest, blockNumber, requests, answers)
    ensures IsOldest(if answer.Some? && n < oldest then n else oldest, blockNumber, requests + [n], answers + [answer])
  {
    var all, got := requests + [n], answers + [answer];
    if answer.Some? && n < oldest {
      assert got[|requests|].Some? && all[|requests|] == n;
    } else if oldest != blockNumber {
      var j :| 0 <= j < |requests| && answers[j].Some? && requests[j] == oldest;
      assert got[j].Some? && all[j] == oldest;
    }
  }

  lemma AllLinked(headers: seq<Sealed>)
    requires forall i :: 0 <= i && i + 1 < |headers| ==> Links(headers[i], headers[i + 1])
    ensures forall i :: 0 <= i && i + 1 < |headers| ==>
      && headers[i + 1].header.number == (if headers[i].header.number == 0 then U64_LIMIT - 1 else headers[i].header.number - 1)
      && headers[i + 1].hash == headers[i].header.parentHash
  {
    forall i | 0 <= i && i + 1 < |headers|
      ensures headers[i + 1].header.number == Before(headers[i].header.number)
      ensures headers[i + 1].hash == headers[i].header.parentHash
    {
      assert Links(headers[i], headers[i + 1]);
    }
  }

  /** The collected hashes of a chain's headers are the provider's. */
  lemma KnownNumbers(provider: Provider, headers: seq<Sealed>, top: nat, oldest: nat, byNumber: map<nat, Hash>)
    requires oldest <= top && |headers| == top - oldest + 2
    requires forall i :: 0 < i < |headers| ==>
      headers[i].header.number == top + 1 - i && Some(headers[i].hash) == AnswerOf(provider, top + 1 - i)
    requires forall n :: n in byNumber <==> exists i :: 0 < i < |headers| && headers[i].header.number == n
    requires forall n :: n in byNumber ==>
      exists i :: 0 < i < |headers| && headers[i].header.number == n && headers[i].hash == byNumber[n]
    ensures forall n :: n in byNumber <==> oldest <= n <= top
    ensures forall n :: n in byNumber ==> Some(byNumber[n]) == AnswerOf(provider, n)
  {
    hide AnswerOf;
    forall n: nat | oldest <= n <= top
      ensures n in byNumber
    {
      assert headers[top + 1 - n].header.number == n;
    }
  }

  /** The guest accepts the headers of a hash-linked chain and knows the hash of every block from the
      oldest one to the parent block. */
  method Replay(H: HeaderHash, provider: Provider, current: Header, blockNumber: nat, oldest: nat, ancestors: seq<Header>)
    returns (checked: Checked)
    requires Chain(H, provider, blockNumber) && oldest <= blockNumber && current.number == blockNumber + 1 < U64_LIMIT
    requires Collected(provider, blockNumber, oldest, ancestors)
    requires provider(blockNumber).Some? && current.parentHash == provider(blockNumber).value.hash
    ensures checked.Hashes?
    ensures forall n :: n in checked.byNumber <==> oldest <= n <= blockNumber
    ensures forall n :: n in checked.byNumber ==> Some(checked.byNumber[n]) == AnswerOf(provider, n)
  {
    hide *;
    var headers := SealedHeaders(H, current, ancestors);
    ChainIsAccepted(H, provider, current, blockNumber, oldest, ancestors);
    AllLinked(headers);
    checked := CheckHeaders(headers);
    KnownNumbers(provider, headers, blockNumber, oldest, checked.byNumber);
  }

  /** The whole way: whatever block hashes are requested while the host executes a block, if the
      ancestors can be collected then the guest accepts them, and it can answer exactly those requests
      that do not go beyond the parent block, each with the hash that the host returned. */
  method RecordAndReplay(H: HeaderHash, provider: Provider, current: Header, blockNumber: nat, requests: seq<nat>)
    returns (answers: seq<Option<Hash>>, checked: Option<Checked>)
    requires Chain(H, provider, blockNumber) && current.number == blockNumber + 1 < U64_LIMIT
    requires provider(blockNumber).Some? ==> current.parentHash == provider(blockNumber).value.hash
    ensures |answers| == |requests| && forall j :: 0 <= j < |requests| ==> answers[j] == AnswerOf(provider, requests[j])
    ensures (forall n :: 0 <= n <= blockNumber ==> provider(n).Some?) ==> checked.Some?
    ensures checked.Some? ==>
      && checked.value.Hashes?
      && (exists oldest: nat :: IsOldest(oldest, blockNumber, requests, answers)
            && forall n :: n in checked.value.byNumber <==> oldest <= n <= blockNumber)
      && (forall j :: 0 <= j < |requests| && answers[j].Some? ==>
            (requests[j] <= blockNumber <==> requests[j] in checked.value.byNumber))
      && (forall j :: 0 <= j < |requests| && requests[j] in checked.value.byNumber ==>
            answers[j] == Some(checked.value.byNumber[requests[j]]))
  {
    var db;
    db, answers := Record(provider, blockNumber, requests);
    var ancestors := db.AncestorHeaders(provider);
    checked := None;
    if ancestors.Some? {
      var result := Replay(H, provider, current, blockNumber, db.oldestAncestor, ancestors.value);
      checked := Some(result);
    }
  }

  /** The least of the block number and of the requests that were answered. */
  ghost predicate IsOldest(oldest: nat, blockNumber: nat, requests: seq<nat>, answers: seq<Option<Hash>>)
    requires |requests| == |answers|
  {
    && oldest <= blockNumber
    && (forall j :: 0 <= j < |requests| && answers[j].Some? ==> oldest <= requests[j])
    && (oldest == blockNumber || exists j :: 0 <= j < |requests| && answers[j].Some? && requests[j] == oldest)
  }

  /** A hash-linked chain passes the guest's checks. */
  lemma ChainIsAccepted(H: HeaderHash, provider: Provider, current: Header, blockNumber: nat, oldest: nat, ancestors: seq<Header>)
    requires Chain(H, provider, blockNumber) && oldest <= blockNumber && current.number == blockNumber + 1 < U64_LIMIT
    requires Collected(provider, blockNumber, oldest, ancestors)
    requires provider(blockNumber).Some? && current.parentHash == provider(blockNumber).value.hash
    ensures var headers := SealedHeaders(H, current, ancestors);
      && |headers| == blockNumber - oldest + 2
      && (forall i :: 0 <= i && i + 1 < |headers| ==> Links(headers[i], headers[i + 1]))
      && (forall i :: 0 < i < |headers| ==>
            headers[i].header.number == blockNumber + 1 - i && Some(headers[i].hash) == AnswerOf(provider, blockNumber + 1 - i))
  {
    var headers := SealedHeaders(H, current, ancestors);
    forall i | 0 < i < |headers|
      ensures headers[i].header == ancestors[i - 1] && headers[i].header.number == blockNumber + 1 - i
      ensures Some(headers[i].hash) == AnswerOf(provider, blockNumber + 1 - i)
    {
      var at := i - 1;
      assert headers[at + 1] == Seal(H, ancestors[at]);
      assert blockNumber - at == blockNumber + 1 - i;
    }
    forall i | 0 <= i && i + 1 < |headers|
      ensures Links(headers[i], headers[i + 1])
    {
      var at := i + 1;
      assert headers[at].header == ancestors[i];
      if i > 0 {
        assert headers[i].header == ancestors[i - 1];
        assert provider(blockNumber - (i - 1)).Some? && provider(blockNumber - i).Some?;
      }
    }
  }

  /** The header numbers count down from the first one, in 64 bits. */
  lemma {:induction false} NumbersCountDown(headers: seq<Sealed>, top: nat, i: nat)
    requires i < |headers| <= U64_LIMIT && top + 1 < U64_LIMIT && headers[0].header.number == top + 1
    requires forall j :: 0 <= j && j + 1 < |headers| ==> Links(headers[j], headers[j + 1])
    ensures headers[i].header.number == if i <= top + 1 then top + 1 - i else U64_LIMIT + top + 1 - i
  {
    if i > 0 {
      NumbersCountDown(headers, top, i - 1);
      assert Links(headers[i - 1], headers[i - 1 + 1]);
    }
  }

  /** No header of the host has the hash of another header of the chain. */
  ghost predicate NoHeaderCollision(H: HeaderHash, provider: Provider, top: nat, headers: seq<Sealed>) {
    forall i, n :: 0 <= i < |headers| && 0 <= n <= top && provider(n).Some? && H(headers[i].header) == provider(n).value.hash ==>
      headers[i].header == provider(n).value.header
  }

  lemma {:induction false} AcceptedHeader(H: HeaderHash, provider: Provider, top: nat, headers: seq<Sealed>, i: nat)
    requires Chain(H, provider, top) && forall n :: 0 <= n <= top ==> provider(n).Some?
    requires 0 < i < |headers| <= U64_LIMIT && i <= top + 1 && top + 1 < U64_LIMIT
    requires headers[0].header.number == top + 1 && headers[0].header.parentHash == provider(top).value.hash
    requires forall j :: 0 <= j < |headers| ==> headers[j].hash == H(headers[j].header)
    requires forall j :: 0 <= j && j + 1 < |headers| ==> Links(headers[j], headers[j + 1])
    requires NoHeaderCollision(H, provider, top, headers)
    ensures headers[i].hash == provider(top + 1 - i).value.hash && headers[i].header == provider(top + 1 - i).value.header
  {
    assert Links(headers[i - 1], headers[i - 1 + 1]);
    if i > 1 {
      AcceptedHeader(H, provider, top, headers, i - 1);
      assert provider(top + 1 - (i - 1)).value.header.parentHash == provider(top + 1 - i).value.hash;
    }
  }

  /** The guest cannot be given a wrong block hash: if sealed headers are accepted, and the first one names
      the parent block of a hash-linked chain, then unless two headers collide every header is the
      chain's header of its number, and every hash that is collected for a block of the chain is the hash
      of that block. */
  lemma AcceptedIsTheChain(H: HeaderHash, provider: Provider, top: nat, headers: seq<Sealed>, byNumber: map<nat, Hash>)
    requires Chain(H, provider, top) && forall n :: 0 <= n <= top ==> provider(n).Some?
    requires 0 < |headers| <= U64_LIMIT && top + 1 < U64_LIMIT
    requires headers[0].header.number == top + 1 && headers[0].header.parentHash == provider(top).value.hash
    requires forall j :: 0 <= j < |headers| ==> headers[j].hash == H(headers[j].header)
    requires forall j :: 0 <= j && j + 1 < |headers| ==>
      && headers[j + 1].header.number == (if headers[j].header.number == 0 then U64_LIMIT - 1 else headers[j].header.number - 1)
      && headers[j + 1].hash == headers[j].header.parentHash
    requires forall n :: n in byNumber ==>
      exists i :: 0 < i < |headers| && headers[i].header.number == n && headers[i].hash == byNumber[n]
    requires NoHeaderCollision(H, provider, top, headers)
    ensures forall i :: 0 < i < |headers| && i <= top + 1 ==> headers[i].header == provider(top + 1 - i).value.header
    ensures forall n :: n in byNumber && n <= top ==> byNumber[n] == provider(n).value.hash
  {
    hide Chain;
    forall j | 0 <= j && j + 1 < |headers|
      ensures Links(headers[j], headers[j + 1])
    {
    }
    forall i | 0 < i < |headers| && i <= top + 1
      ensures headers[i].header == provider(top + 1 - i).value.header && headers[i].hash == provider(top + 1 - i).value.hash
    {
      AcceptedHeader(H, provider, top, headers, i);
    }
    forall n | n in byNumber && n <= top
      ensures byNumber[n] == provider(n).value.hash
    {
      var i :| 0 < i < |headers| && headers[i].header.number == n && headers[i].hash == byNumber[n];
      NumbersCountDown(headers, top, i);
    }
  }
}
