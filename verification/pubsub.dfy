/** The subscriber registry of `pubsub.cpp`.

    Two maps from topic to (subscription id -> callback): `offline`, for
    messages published in this process, and `online`, for publications that
    arrive from peers. Callbacks are opaque values of type `C`; publishing
    returns the callbacks it invokes instead of calling them.

    The C++ code reads and erases through `operator[]`, which inserts an empty
    subscriber map for a topic it has not seen. The model keeps that insertion,
    and `Equivalent` states that such an empty entry is indistinguishable from
    an absent topic.
 */
module PubSub {
  import opened Codec

  type Topic = Bytes
  type SubscriptionId = Bytes
  type Subscribers<C> = map<SubscriptionId, C>
  type TopicMap<C> = map<Topic, Subscribers<C>>

  datatype Registry<C> = Registry(offline: TopicMap<C>, online: TopicMap<C>)

  /** Every callback of `callbacks` is called once with `message`. */
  datatype Delivery<C> = Delivery(callbacks: Subscribers<C>, message: Bytes)

  /** The registry after a publish, and the calls the publish makes. */
  datatype Published<C> = Published(registry: Registry<C>, delivery: Delivery<C>)

  function EmptyRegistry<C>(): Registry<C> {
    Registry(map[], map[])
  }

  /** The subscribers of `topic`; none when the topic has no entry. */
  function Lookup<C>(m: TopicMap<C>, topic: Topic): Subscribers<C> {
    if topic in m then m[topic] else map[]
  }

  /** Two registries with the same subscribers for every topic, whether a
      subscriber-less topic has an empty entry or none at all. */
  ghost predicate Equivalent<C>(a: Registry<C>, b: Registry<C>) {
    && (forall t :: Lookup(a.offline, t) == Lookup(b.offline, t))
    && (forall t :: Lookup(a.online, t) == Lookup(b.online, t))
  }

  /** `id` names no subscription of the registry, in either map. */
  ghost predicate Fresh<C>(r: Registry<C>, id: SubscriptionId) {
    forall t :: id !in Lookup(r.offline, t) && id !in Lookup(r.online, t)
  }

  // ---------------------------------------------------------------------
  // Subscribe (the template bodies are not part of this model: abstract)
  // ---------------------------------------------------------------------

  /** Register `callback` for offline delivery of `topic` under `id`. */
  function SubscribeOffline<C>(r: Registry<C>, topic: Topic, id: SubscriptionId, callback: C): (r': Registry<C>)
    ensures Lookup(r'.offline, topic) == Lookup(r.offline, topic)[id := callback]
    ensures forall t | t != topic :: Lookup(r'.offline, t) == Lookup(r.offline, t)
    ensures r'.online == r.online
  {
    r.(offline := r.offline[topic := Lookup(r.offline, topic)[id := callback]])
  }

  /** Register `callback` for online delivery of `topic` under `id`. */
  function SubscribeOnline<C>(r: Registry<C>, topic: Topic, id: SubscriptionId, callback: C): (r': Registry<C>)
    ensures Lookup(r'.online, topic) == Lookup(r.online, topic)[id := callback]
    ensures forall t | t != topic :: Lookup(r'.online, t) == Lookup(r.online, t)
    ensures r'.offline == r.offline
  {
    r.(online := r.online[topic := Lookup(r.online, topic)[id := callback]])
  }

  /** Register `callback` in both maps under one id. */
  function SubscribeAll<C>(r: Registry<C>, topic: Topic, id: SubscriptionId, callback: C): (r': Registry<C>)
    ensures Lookup(r'.offline, topic) == Lookup(r.offline, topic)[id := callback]
    ensures Lookup(r'.online, topic) == Lookup(r.online, topic)[id := callback]
    ensures forall t | t != topic ::
              Lookup(r'.offline, t) == Lookup(r.offline, t) && Lookup(r'.online, t) == Lookup(r.online, t)
  {
    SubscribeOnline(SubscribeOffline(r, topic, id, callback), topic, id, callback)
  }

  // ---------------------------------------------------------------------
  // Unsubscribe
  // ---------------------------------------------------------------------

  /** `PubSub::UnsubscribeOffline`: erase `id` from the topic's offline map. */
  function UnsubscribeOffline<C>(r: Registry<C>, topic: Topic, id: SubscriptionId): (r': Registry<C>)
    ensures Lookup(r'.offline, topic) == Lookup(r.offline, topic) - {id}
    ensures forall t | t != topic :: Lookup(r'.offline, t) == Lookup(r.offline, t)
    ensures r'.online == r.online
    ensures topic in r'.offline
  {
    r.(offline := r.offline[topic := Lookup(r.offline, topic) - {id}])
  }

  /** `PubSub::UnsubscribeOnline`: erase `id` from the topic's online map. */
  function UnsubscribeOnline<C>(r: Registry<C>, topic: Topic, id: SubscriptionId): (r': Registry<C>)
    ensures Lookup(r'.online, topic) == Lookup(r.online, topic) - {id}
    ensures forall t | t != topic :: Lookup(r'.online, t) == Lookup(r.online, t)
    ensures r'.offline == r.offline
    ensures topic in r'.online
  {
    r.(online := r.online[topic := Lookup(r.online, topic) - {id}])
  }

  /** `PubSub::Unsubscribe`: erase `id` from both maps of the topic. */
  function Unsubscribe<C>(r: Registry<C>, topic: Topic, id: SubscriptionId): (r': Registry<C>)
    ensures id !in Lookup(r'.offline, topic) && id !in Lookup(r'.online, topic)
    ensures r' == UnsubscribeOnline(UnsubscribeOffline(r, topic, id), topic, id)
  {
    Registry(r.offline[topic := Lookup(r.offline, topic) - {id}],
             r.online[topic := Lookup(r.online, topic) - {id}])
  }

  /** Unsubscribing an id the topic does not have changes no visible subscriber set. */
  lemma UnsubscribeAbsentIsNoop<C>(r: Registry<C>, topic: Topic, id: SubscriptionId)
    ensures id !in Lookup(r.offline, topic) ==> Equivalent(UnsubscribeOffline(r, topic, id), r)
    ensures id !in Lookup(r.online, topic) ==> Equivalent(UnsubscribeOnline(r, topic, id), r)
    ensures id !in Lookup(r.offline, topic) && id !in Lookup(r.online, topic)
            ==> Equivalent(Unsubscribe(r, topic, id), r)
  {
    var off := Lookup(r.offline, topic);
    var on := Lookup(r.online, topic);
    if id !in off {
      assert off - {id} == off;
    }
    if id !in on {
      assert on - {id} == on;
    }
  }

  /** A second identical unsubscribe changes nothing at all. */
  lemma UnsubscribeIdempotent<C>(r: Registry<C>, topic: Topic, id: SubscriptionId)
    ensures UnsubscribeOffline(UnsubscribeOffline(r, topic, id), topic, id) == UnsubscribeOffline(r, topic, id)
    ensures UnsubscribeOnline(UnsubscribeOnline(r, topic, id), topic, id) == UnsubscribeOnline(r, topic, id)
    ensures Unsubscribe(Unsubscribe(r, topic, id), topic, id) == Unsubscribe(r, topic, id)
  {
    var off := Lookup(r.offline, topic);
    var on := Lookup(r.online, topic);
    assert off - {id} - {id} == off - {id};
    assert on - {id} - {id} == on - {id};
  }

  /** Unsubscribing a subscription made under a fresh id undoes it. */
  lemma SubscribeThenUnsubscribe<C>(r: Registry<C>, topic: Topic, id: SubscriptionId, callback: C)
    requires Fresh(r, id)
    ensures Equivalent(UnsubscribeOffline(SubscribeOffline(r, topic, id, callback), topic, id), r)
    ensures Equivalent(UnsubscribeOnline(SubscribeOnline(r, topic, id, callback), topic, id), r)
    ensures Equivalent(Unsubscribe(SubscribeAll(r, topic, id, callback), topic, id), r)
  {
    var off := Lookup(r.offline, topic);
    var on := Lookup(r.online, topic);
    assert id !in off && id !in on;
    assert off[id := callback] - {id} == off;
    assert on[id := callback] - {id} == on;
  }

  // ---------------------------------------------------------------------
  // Publish
  // ---------------------------------------------------------------------

  /** `PubSub::PublishOffline`: every offline subscriber of the topic, and no
      online one, is called once with `message`. */
  function PublishOffline<C>(r: Registry<C>, topic: Topic, message: Bytes): (p: Published<C>)
    ensures p.delivery == Delivery(Lookup(r.offline, topic), message)
    ensures Equivalent(p.registry, r) && p.registry.online == r.online
  {
    var subscribers := Lookup(r.offline, topic);
    Published(r.(offline := r.offline[topic := subscribers]), Delivery(subscribers, message))
  }

  /** `PubSub::PublishOnline`: every online subscriber of the topic, and no
      offline one, is called once with `message`. */
  function PublishOnline<C>(r: Registry<C>, topic: Topic, message: Bytes): (p: Published<C>)
    ensures p.delivery == Delivery(Lookup(r.online, topic), message)
    ensures Equivalent(p.registry, r) && p.registry.offline == r.offline
  {
    var subscribers := Lookup(r.online, topic);
    Published(r.(online := r.online[topic := subscribers]), Delivery(subscribers, message))
  }

  /** A callback registered offline is called by an offline publish of its
      topic, with the published message, until it is unsubscribed. */
  lemma OfflineDelivery<C>(r: Registry<C>, topic: Topic, id: SubscriptionId, callback: C, message: Bytes)
    ensures var d := PublishOffline(SubscribeOffline(r, topic, id, callback), topic, message).delivery;
            id in d.callbacks && d.callbacks[id] == callback && d.message == message
    ensures id !in PublishOffline(UnsubscribeOffline(r, topic, id), topic, message).delivery.callbacks
    ensures Fresh(r, id) ==> id !in PublishOnline(SubscribeOffline(r, topic, id, callback), topic, message).delivery.callbacks
  {
  }

  /** Same for an online registration and an online publish. */
  lemma OnlineDelivery<C>(r: Registry<C>, topic: Topic, id: SubscriptionId, callback: C, message: Bytes)
    ensures var d := PublishOnline(SubscribeOnline(r, topic, id, callback), topic, message).delivery;
            id in d.callbacks && d.callbacks[id] == callback && d.message == message
    ensures id !in PublishOnline(UnsubscribeOnline(r, topic, id), topic, message).delivery.callbacks
    ensures Fresh(r, id) ==> id !in PublishOffline(SubscribeOnline(r, topic, id, callback), topic, message).delivery.callbacks
  {
  }

  // ---------------------------------------------------------------------
  // Subscribed topics
  // ---------------------------------------------------------------------

  /** The topics with at least one online subscriber. */
  function OnlineTopics<C>(r: Registry<C>): set<Topic> {
    set t | t in r.online && |r.online[t]| > 0
  }

  predicate NoDuplicates(ts: seq<Topic>) {
    forall i, j | 0 <= i < j < |ts| :: ts[i] != ts[j]
  }

  /** `ts` lists each topic with an online subscriber exactly once, in some order. */
  ghost predicate IsTopicListing<C>(r: Registry<C>, ts: seq<Topic>) {
    NoDuplicates(ts) && forall t :: t in ts <==> t in OnlineTopics(r)
  }

  /** `PubSub::GetOnlineSubscribedTopics`: walk the online map (in whatever
      order the hash map yields) and keep the topics whose map is not empty. */
  method GetOnlineSubscribedTopics<C>(r: Registry<C>) returns (topics: seq<Topic>)
    ensures IsTopicListing(r, topics)
  {
    topics := [];
    var remaining := r.online.Keys;
    while remaining != {}
      invariant remaining <= r.online.Keys
      invariant NoDuplicates(topics)
      invariant forall t :: t in topics <==> t in OnlineTopics(r) && t !in remaining
      decreases remaining
    {
      var t :| t in remaining;
      if |r.online[t]| > 0 {
        topics := topics + [t];
      }
      remaining := remaining - {t};
    }
  }

  /** Registries with the same subscribers list the same topics: an entry left
      empty by a publish or an unsubscribe is not listed. */
  lemma OnlineTopicsRespectEquivalence<C>(a: Registry<C>, b: Registry<C>)
    requires Equivalent(a, b)
    ensures OnlineTopics(a) == OnlineTopics(b)
  {
    forall t ensures t in OnlineTopics(a) <==> t in OnlineTopics(b) {
      assert Lookup(a.online, t) == Lookup(b.online, t);
    }
  }

  /** Removing the last online subscriber of a topic drops it from the listing,
      and no other topic enters or leaves it. */
  lemma UnsubscribeLastOnline<C>(r: Registry<C>, topic: Topic, id: SubscriptionId)
    requires Lookup(r.online, topic).Keys <= {id}
    ensures OnlineTopics(UnsubscribeOnline(r, topic, id)) == OnlineTopics(r) - {topic}
    ensures OnlineTopics(Unsubscribe(r, topic, id)) == OnlineTopics(r) - {topic}
  {
    var r' := UnsubscribeOnline(r, topic, id);
    assert Lookup(r'.online, topic).Keys == {};
    forall t ensures t in OnlineTopics(r') <==> t in OnlineTopics(r) - {topic} {
      if t != topic {
        assert Lookup(r'.online, t) == Lookup(r.online, t);
      } else {
        assert |r'.online[t].Keys| == 0;
      }
    }
  }

  /** An online subscription puts its topic in the listing. */
  lemma SubscribeOnlineListsTopic<C>(r: Registry<C>, topic: Topic, id: SubscriptionId, callback: C)
    ensures OnlineTopics(SubscribeOnline(r, topic, id, callback)) == OnlineTopics(r) + {topic}
  {
    var r' := SubscribeOnline(r, topic, id, callback);
    assert id in r'.online[topic];
    forall t ensures t in OnlineTopics(r') <==> t in OnlineTopics(r) + {topic} {
      if t != topic {
        assert Lookup(r'.online, t) == Lookup(r.online, t);
      }
    }
  }
}
