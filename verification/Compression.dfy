/** Batch compression with per-id queues against compressing each identity in turn. */
module Compression {
  import opened Wrappers
  import opened Delivery

  datatype Item = Item(originalId: string, text: string)
  datatype Compressed = Compressed(identity: DeliveryIdentity, item: Item)

  /** How the service answers one content id: shrunk, skipped, or a storage error. */
  datatype Reply = Shrunk(item: Item) | Skipped | Broken(error: string)

  /** A service answers an id with an item that carries that id. */
  ghost predicate Carries(service: string -> Reply) {
    forall id :: service(id).Shrunk? ==> service(id).item.originalId == id
  }

  /** `compress_content`: answer the ids in order, stopping at the first error. */
  function CompressContent(service: string -> Reply, ids: seq<string>): Result<seq<Item>, string> {
    if ids == [] then Ok([]) else
      match CompressContent(service, ids[..|ids| - 1])
      case Err(e) => Err(e)
      case Ok(items) =>
        match service(ids[|ids| - 1])
        case Shrunk(item) => Ok(items + [item])
        case Skipped => Ok(items)
        case Broken(e) => Err(e)
  }

  function ContentIds(identities: seq<DeliveryIdentity>): (ids: seq<string>)
    ensures |ids| == |identities|
  {
    seq(|identities|, i requires 0 <= i < |identities| => identities[i].contentId)
  }

  // ---------------------------------------------------------------- one by one

  /** What compressing each identity in turn returns. */
  function OneByOne(service: string -> Reply, identities: seq<DeliveryIdentity>): Result<seq<Compressed>, string> {
    if identities == [] then Ok([]) else
      var last := identities[|identities| - 1];
      match OneByOne(service, identities[..|identities| - 1])
      case Err(e) => Err(e)
      case Ok(done) =>
        match service(last.contentId)
        case Shrunk(item) => Ok(done + [Compressed(last, item)])
        case Skipped => Ok(done)
        case Broken(e) => Err(e)
  }

  /** `LocalBackend::compress`. */
  method CompressLocal(service: string -> Reply, identities: seq<DeliveryIdentity>)
    returns (r: Result<seq<Compressed>, string>)
    ensures r == OneByOne(service, identities)
  {
    var compressed: seq<Compressed> := [];
    for i := 0 to |identities|
      invariant OneByOne(service, identities[..i]) == Ok(compressed)
    {
      var identity := identities[i];
      assert identities[..i + 1][..i] == identities[..i];
      var reply := CompressContent(service, [identity.contentId]);
      SingleReply(service, identity.contentId);
      if reply.Err? {
        ErrorPersists(service, identities, i + 1, reply.error);
        return Err(reply.error);
      }
      if reply.value != [] {
        compressed := compressed + [Compressed(identity, reply.value[0])];
      }
    }
    assert identities[..|identities|] == identities;
    return Ok(compressed);
  }

  lemma SingleReply(service: string -> Reply, id: string)
    ensures CompressContent(service, [id]) ==
      match service(id)
      case Shrunk(item) => Ok([item])
      case Skipped => Ok([])
      case Broken(e) => Err(e)
  {
    var ids := [id];
    assert ids[..|ids| - 1] == [];
    if service(id).Shrunk? {
      assert [] + [service(id).item] == [service(id).item];
    }
  }

  lemma {:induction false} ErrorPersists(service: string -> Reply, identities: seq<DeliveryIdentity>, k: nat, e: string)
    requires k <= |identities| && OneByOne(service, identities[..k]) == Err(e)
    ensures OneByOne(service, identities) == Err(e)
  {
    if k == |identities| {
      assert identities[..k] == identities;
    } else {
      var init := identities[..|identities| - 1];
      assert init[..k] == identities[..k];
      ErrorPersists(service, init, k, e);
    }
  }

  // ---------------------------------------------------------------- the batch

  /** The identities with content id `c`, in order: the queue the batch keeps for `c`. */
  function Queue(identities: seq<DeliveryIdentity>, c: string): seq<DeliveryIdentity> {
    if identities == [] then [] else
      var last := identities[|identities| - 1];
      Queue(identities[..|identities| - 1], c) + if last.contentId == c then [last] else []
  }

  function Count(items: seq<Item>, c: string): nat {
    if items == [] then 0 else
      Count(items[..|items| - 1], c) + if items[|items| - 1].originalId == c then 1 else 0
  }

  /** The n-th item with a content id goes to the n-th identity with that id, if there is one. */
  function Paired(identities: seq<DeliveryIdentity>, items: seq<Item>): seq<Compressed> {
    if items == [] then [] else
      var before, item := items[..|items| - 1], items[|items| - 1];
      var queue, n := Queue(identities, item.originalId), Count(before, item.originalId);
      Paired(identities, before) + if n < |queue| then [Compressed(queue[n], item)] else []
  }

  function Drop<T>(s: seq<T>, n: nat): seq<T> {
    if n <= |s| then s[n..] else []
  }

  function At(pending: map<string, seq<DeliveryIdentity>>, c: string): seq<DeliveryIdentity> {
    if c in pending then pending[c] else []
  }

  /** The first half of the batch: queue the identities by content id. */
  method FillQueues(identities: seq<DeliveryIdentity>) returns (pending: map<string, seq<DeliveryIdentity>>)
    ensures forall c :: At(pending, c) == Queue(identities, c)
  {
    pending := map[];
    for i := 0 to |identities|
      invariant forall c :: At(pending, c) == Queue(identities[..i], c)
    {
      var identity := identities[i];
      assert identities[..i + 1][..i] == identities[..i];
      ghost var before := pending;
      pending := pending[identity.contentId := At(pending, identity.contentId) + [identity]];
      forall c ensures At(pending, c) == Queue(identities[..i + 1], c) {
        assert At(before, c) == Queue(identities[..i], c);
      }
    }
    assert identities[..|identities|] == identities;
  }

  lemma {:induction false} PairStep(identities: seq<DeliveryIdentity>, items: seq<Item>, k: nat)
    requires k < |items|
    ensures var c := items[k].originalId;
            var rest := Drop(Queue(identities, c), Count(items[..k], c));
            Paired(identities, items[..k + 1])
            == Paired(identities, items[..k]) + if rest == [] then [] else [Compressed(rest[0], items[k])]
    ensures forall c :: Count(items[..k + 1], c) == Count(items[..k], c) + if items[k].originalId == c then 1 else 0
  {
    assert items[..k + 1][..k] == items[..k];
  }

  ghost predicate Waiting(pending: map<string, seq<DeliveryIdentity>>, identities: seq<DeliveryIdentity>,
                          served: seq<Item>, c: string)
  {
    At(pending, c) == Drop(Queue(identities, c), Count(served, c))
  }

  lemma PopStep(pending: map<string, seq<DeliveryIdentity>>, identities: seq<DeliveryIdentity>,
                items: seq<Item>, k: nat, after: map<string, seq<DeliveryIdentity>>, d: string)
    requires k < |items| && Waiting(pending, identities, items[..k], d)
    requires Waiting(pending, identities, items[..k], items[k].originalId)
    requires after == var c := items[k].originalId;
                      if At(pending, c) != [] then pending[c := At(pending, c)[1..]] else pending
    ensures Waiting(after, identities, items[..k + 1], d)
  {
    PairStep(identities, items, k);
    var c := items[k].originalId;
    if d == c && At(pending, c) == [] {
      assert Drop(Queue(identities, c), Count(items[..k], c)) == [];
    }
  }

  /** `compress_with_service`, once the service has answered with `items`. */
  method MatchItems(identities: seq<DeliveryIdentity>, items: seq<Item>) returns (r: seq<Compressed>)
    ensures r == Paired(identities, items)
  {
    var pending := FillQueues(identities);
    r := [];
    for k := 0 to |items|
      invariant r == Paired(identities, items[..k])
      invariant forall c :: Waiting(pending, identities, items[..k], c)
    {
      var c := items[k].originalId;
      PairStep(identities, items, k);
      ghost var before := pending;
      assert Waiting(before, identities, items[..k], c);
      if c in pending && pending[c] != [] {
        r := r + [Compressed(pending[c][0], items[k])];
        pending := pending[c := pending[c][1..]];
      }
      ghost var served := items[..k + 1];
      forall d ensures Waiting(pending, identities, served, d) {
        PopStep(before, identities, items, k, pending, d);
      }
    }
    assert items[..|items|] == items;
  }

  /** `compress_with_service`. */
  method CompressBatch(service: string -> Reply, identities: seq<DeliveryIdentity>)
    returns (r: Result<seq<Compressed>, string>)
    requires Carries(service)
    ensures r == OneByOne(service, identities)
  {
    BatchIsOneByOne(service, identities);
    var items := CompressContent(service, ContentIds(identities));
    if items.Err? {
      return Err(items.error);
    }
    var matched := MatchItems(identities, items.value);
    return Ok(matched);
  }

  // ---------------------------------------------------------------- the two forms agree

  function Answer(service: string -> Reply, identities: seq<DeliveryIdentity>): Result<seq<Item>, string> {
    CompressContent(service, ContentIds(identities))
  }

  lemma AnswerStep(service: string -> Reply, identities: seq<DeliveryIdentity>, x: DeliveryIdentity)
    ensures Answer(service, identities + [x]) ==
      match Answer(service, identities)
      case Err(e) => Err(e)
      case Ok(items) =>
        match service(x.contentId)
        case Shrunk(item) => Ok(items + [item])
        case Skipped => Ok(items)
        case Broken(e) => Err(e)
  {
    var ids := ContentIds(identities + [x]);
    assert ids[..|ids| - 1] == ContentIds(identities);
  }

  /** A well-behaved service answers each id as often as it was asked. */
  lemma {:induction false} AnswerCounts(service: string -> Reply, identities: seq<DeliveryIdentity>, c: string)
    requires Carries(service) && Answer(service, identities).Ok?
    ensures Count(Answer(service, identities).value, c)
         == if service(c).Shrunk? then |Queue(identities, c)| else 0
  {
    if identities != [] {
      var init, x := identities[..|identities| - 1], identities[|identities| - 1];
      assert identities == init + [x];
      AnswerStep(service, init, x);
      AnswerCounts(service, init, c);
      if service(x.contentId).Shrunk? {
        var before, item := Answer(service, init).value, service(x.contentId).item;
        assert (before + [item])[..|before|] == before;
        assert item.originalId == x.contentId;
      }
    }
  }

  /** A later identity does not disturb the pairing of items that earlier identities can serve. */
  lemma {:induction false} PairedIgnoresLater(identities: seq<DeliveryIdentity>, x: DeliveryIdentity, items: seq<Item>)
    requires forall c :: Count(items, c) <= |Queue(identities, c)|
    ensures Paired(identities + [x], items) == Paired(identities, items)
  {
    if items != [] {
      var before, item := items[..|items| - 1], items[|items| - 1];
      forall c ensures Count(before, c) <= |Queue(identities, c)| {
        assert Count(items, c) <= |Queue(identities, c)|;
      }
      PairedIgnoresLater(identities, x, before);
      assert (identities + [x])[..|identities|] == identities;
      assert Count(items, item.originalId) == Count(before, item.originalId) + 1;
    }
  }

  /** Main theorem: the batch returns what compressing each identity in turn returns, errors included,
      also when one content id is delivered at several resolutions. */
  lemma {:induction false} BatchIsOneByOne(service: string -> Reply, identities: seq<DeliveryIdentity>)
    requires Carries(service)
    ensures OneByOne(service, identities) ==
      match Answer(service, identities)
      case Err(e) => Err(e)
      case Ok(items) => Ok(Paired(identities, items))
  {
    if identities != [] {
      var init, x := identities[..|identities| - 1], identities[|identities| - 1];
      assert identities == init + [x];
      BatchIsOneByOne(service, init);
      AnswerStep(service, init, x);
      if Answer(service, init).Ok? {
        var items := Answer(service, init).value;
        forall c ensures Count(items, c) <= |Queue(init, c)| {
          AnswerCounts(service, init, c);
        }
        PairedIgnoresLater(init, x, items);
        if service(x.contentId).Shrunk? {
          LastPairing(service, init, x, items);
        }
      }
    }
  }

  lemma LastPairing(service: string -> Reply, init: seq<DeliveryIdentity>, x: DeliveryIdentity, items: seq<Item>)
    requires Carries(service) && Answer(service, init) == Ok(items) && service(x.contentId).Shrunk?
    ensures var item := service(x.contentId).item;
            Paired(init + [x], items + [item]) == Paired(init + [x], items) + [Compressed(x, item)]
  {
    var item := service(x.contentId).item;
    assert (items + [item])[..|items|] == items;
    assert (init + [x])[..|init|] == init;
    AnswerCounts(service, init, x.contentId);
  }

  // ---------------------------------------------------------------- any service at all

  function Served(r: seq<Compressed>, c: string): seq<DeliveryIdentity> {
    if r == [] then [] else
      var last := r[|r| - 1];
      Served(r[..|r| - 1], c) + if last.item.originalId == c then [last.identity] else []
  }

  /** Whatever the service answers, an item is only given to an identity with its id. */
  lemma {:induction false} PairsMatch(identities: seq<DeliveryIdentity>, items: seq<Item>, p: Compressed)
    requires p in Paired(identities, items)
    ensures p.identity.contentId == p.item.originalId && p.identity in identities && p.item in items
  {
    var before, item := items[..|items| - 1], items[|items| - 1];
    assert items == before + [item];
    if p in Paired(identities, before) {
      PairsMatch(identities, before, p);
    } else {
      assert p.identity in Queue(identities, item.originalId);
      QueueMembers(identities, item.originalId);
    }
  }

  function Take<T>(s: seq<T>, n: nat): seq<T> {
    if n <= |s| then s[..n] else s
  }

  lemma TakeStep<T>(s: seq<T>, n: nat)
    ensures Take(s, n + 1) == Take(s, n) + if n < |s| then [s[n]] else []
  {
  }

  lemma ServedAppend(r: seq<Compressed>, more: seq<Compressed>, c: string)
    requires |more| <= 1
    ensures Served(r + more, c)
         == Served(r, c) + if |more| == 1 && more[0].item.originalId == c then [more[0].identity] else []
  {
    if more == [] {
      assert r + more == r;
    } else {
      assert (r + more)[..|r|] == r;
    }
  }

  /** Whatever the service answers, the identities handed out for an id are the first ones queued for it,
      in order, so no occurrence is used twice. */
  lemma {:induction false} ServedInQueueOrder(identities: seq<DeliveryIdentity>, items: seq<Item>, c: string)
    ensures Served(Paired(identities, items), c) == Take(Queue(identities, c), Count(items, c))
  {
    if items != [] {
      var before, item := items[..|items| - 1], items[|items| - 1];
      ServedInQueueOrder(identities, before, c);
      var queue, n := Queue(identities, item.originalId), Count(before, item.originalId);
      ServedAppend(Paired(identities, before), if n < |queue| then [Compressed(queue[n], item)] else [], c);
      TakeStep(queue, n);
    }
  }

  lemma {:induction false} QueueMembers(identities: seq<DeliveryIdentity>, c: string)
    ensures forall x :: x in Queue(identities, c) <==> x in identities && x.contentId == c
  {
    if identities != [] {
      QueueMembers(identities[..|identities| - 1], c);
      assert identities == identities[..|identities| - 1] + [identities[|identities| - 1]];
    }
  }
}
