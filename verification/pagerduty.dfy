/** PagerDuty event submission with incident-key deduplication. An alert
    is keyed by the service key and the host/script part of its
    description; a trigger remembers the incident key PagerDuty answers
    with, so that later events about the same host and script carry it,
    and a resolve is sent only for an alert whose incident key is known. */
module PagerDuty {
  import opened Common
  import opened Strings

  /** The persistent key storage (a pickled dict or redis): storage key to
      incident key. */
  type Store = map<string, string>

  /** The stored incident key for `storeKey`, or None. */
  function GetIncidentKey(store: Store, storeKey: string): (r: Option<string>)
    ensures r.Some? <==> storeKey in store
    ensures r.Some? ==> r.value == store[storeKey]
  {
    if storeKey in store then Some(store[storeKey]) else None
  }

  /** `a` and `b` agree on every key but `key`. */
  ghost predicate SameExcept(a: Store, b: Store, key: string)
  {
    forall k :: k != key ==> (k in a <==> k in b) && (k in a ==> a[k] == b[k])
  }

  function AddIncidentKey(store: Store, storeKey: string, incidentKey: string): (r: Store)
    ensures storeKey in r && r[storeKey] == incidentKey
    ensures SameExcept(r, store, storeKey)
  {
    store[storeKey := incidentKey]
  }

  /** Removes `storeKey`; removing a key that is not there changes nothing,
      as with redis. */
  function DelIncidentKey(store: Store, storeKey: string): (r: Store)
    ensures storeKey !in r
    ensures SameExcept(r, store, storeKey)
  {
    store - {storeKey}
  }

  /** Lookups after adding and removing keys. */
  lemma StoreLaws(store: Store, key: string, incidentKey: string, other: string)
    requires other != key
    ensures GetIncidentKey(map[], key) == None
    ensures GetIncidentKey(AddIncidentKey(store, key, incidentKey), key) == Some(incidentKey)
    ensures GetIncidentKey(AddIncidentKey(store, key, incidentKey), other) == GetIncidentKey(store, other)
    ensures GetIncidentKey(DelIncidentKey(store, key), key) == None
    ensures GetIncidentKey(DelIncidentKey(store, key), other) == GetIncidentKey(store, other)
    ensures DelIncidentKey(AddIncidentKey(store, key, incidentKey), key) == DelIncidentKey(store, key)
  {
    var added := AddIncidentKey(store, key, incidentKey);
    assert DelIncidentKey(added, key) == DelIncidentKey(store, key);
  }

  /** The event sent to PagerDuty. `details` is passed through untouched
      and is modelled as text. */
  datatype Message = Message(
    serviceKey: string,
    eventType: string,
    description: string,
    incidentKey: Option<string>,
    details: Option<string>)

  /** `construct`: the event, carrying the stored incident key if any. */
  function Construct(serviceKey: string, eventType: string, desc: string, storeKey: string,
                     details: Option<string>, store: Store): (m: Message)
    ensures m.serviceKey == serviceKey && m.eventType == eventType
    ensures m.description == desc && m.details == details
    ensures m.incidentKey.Some? <==> storeKey in store
    ensures m.incidentKey.Some? ==> m.incidentKey.value == store[storeKey]
  {
    Message(serviceKey, eventType, desc, GetIncidentKey(store, storeKey), details)
  }

  /** The host and script an alert is about: its description up to the
      first ':'. */
  function HostScript(desc: string): (r: string)
    ensures r <= desc && ':' !in r
    ensures r == desc || desc[|r|] == ':'
  {
    BeforeFirst(desc, ':')
  }

  /** The key an alert's incident key is stored under: the service key,
      '^', then the longest prefix of the description without ':'. */
  function StorageKey(serviceKey: string, desc: string): (r: string)
    ensures |r| > |serviceKey| && r[..|serviceKey| + 1] == serviceKey + "^"
    ensures var h := r[|serviceKey| + 1..];
            h <= desc && ':' !in h && (h == desc || desc[|h|] == ':')
  {
    assert (serviceKey + "^" + HostScript(desc))[|serviceKey| + 1..] == HostScript(desc);
    serviceKey + "^" + HostScript(desc)
  }

  /** A description without ':' is all host and script. */
  lemma StorageKeyNoColon(serviceKey: string, desc: string)
    requires ':' !in desc
    ensures StorageKey(serviceKey, desc) == serviceKey + "^" + desc
  {
    assert forall i :: 0 <= i < |desc| ==> desc[i] != ':';
  }

  /** Descriptions about the same host and script share a storage key,
      whatever follows the first ':'. */
  lemma {:induction false} SameHostScript(serviceKey: string, hostScript: string, rest1: string, rest2: string)
    requires ':' !in hostScript
    ensures StorageKey(serviceKey, hostScript + ":" + rest1) == StorageKey(serviceKey, hostScript + ":" + rest2)
    ensures HostScript(hostScript + ":" + rest1) == hostScript
    decreases |hostScript|
  {
    if hostScript != [] {
      assert (hostScript + ":" + rest1)[1..] == hostScript[1..] + ":" + rest1;
      assert (hostScript + ":" + rest2)[1..] == hostScript[1..] + ":" + rest2;
      SameHostScript(serviceKey, hostScript[1..], rest1, rest2);
    } else {
      assert ("" + ":" + rest1)[0] == ':';
      assert ("" + ":" + rest2)[0] == ':';
    }
  }

  /** Python truthiness of the looked-up incident key. */
  predicate Truthy(incidentKey: Option<string>)
  {
    incidentKey.Some? && incidentKey.value != ""
  }

  /** What an event does: the message sent to PagerDuty, if any, and the
      key storage afterwards. */
  datatype Outcome = Outcome(sent: Option<Message>, store: Store)

  /** `event`. `responseKey` is the incident key in PagerDuty's answer to
      the message, if one is sent. */
  function Event(serviceKey: string, eventType: string, desc: string, details: Option<string>,
                 store: Store, responseKey: string): (o: Outcome)
    ensures o.sent.Some?
        <==> || (&& Contains(eventType, "resolve")
                 && StorageKey(serviceKey, desc) in store && store[StorageKey(serviceKey, desc)] != "")
             || Contains(eventType, "trigger")
    ensures o.sent.Some? ==> o.sent.value == Construct(serviceKey, eventType, desc, StorageKey(serviceKey, desc), details, store)
    ensures o.sent.None? ==> o.store == store
    ensures SameExcept(o.store, store, StorageKey(serviceKey, desc))
  {
    var storageKey := StorageKey(serviceKey, desc);
    var message := Construct(serviceKey, eventType, desc, storageKey, details, store);
    if (Contains(eventType, "resolve") && Truthy(message.incidentKey)) || Contains(eventType, "trigger") then
      if Contains(eventType, "resolve") then
        Outcome(Some(message), DelIncidentKey(store, storageKey))
      else
        Outcome(Some(message), AddIncidentKey(store, storageKey, responseKey))
    else
      Outcome(None, store)
  }

  /** The literal event types select the branch meant for them. */
  lemma ResolveTrigger()
    ensures Contains("resolve", "resolve") && !Contains("resolve", "trigger")
    ensures Contains("trigger", "trigger") && !Contains("trigger", "resolve")
  {
    ContainsItself("resolve");
    ContainsItself("trigger");
    assert "resolve"[0..] == "resolve" && "trigger"[0..] == "trigger";
    assert "resolve"[0] == 'r' && "trigger"[0] == 't';
  }

  /** A resolve with no stored incident key sends nothing and changes nothing. */
  lemma ResolveWithoutKey(serviceKey: string, desc: string, details: Option<string>, store: Store, responseKey: string)
    requires StorageKey(serviceKey, desc) !in store
    ensures Event(serviceKey, "resolve", desc, details, store, responseKey) == Outcome(None, store)
  {
    ResolveTrigger();
  }

  /** A resolve with a stored incident key sends it once and forgets it. */
  lemma ResolveWithKey(serviceKey: string, desc: string, details: Option<string>, store: Store, responseKey: string)
    requires StorageKey(serviceKey, desc) in store && store[StorageKey(serviceKey, desc)] != ""
    ensures var o := Event(serviceKey, "resolve", desc, details, store, responseKey);
            && o.sent == Some(Message(serviceKey, "resolve", desc, Some(store[StorageKey(serviceKey, desc)]), details))
            && StorageKey(serviceKey, desc) !in o.store
  {
    ResolveTrigger();
  }

  /** A trigger is always sent, with the stored incident key if there is
      one, and PagerDuty's incident key is stored. */
  lemma TriggerSends(serviceKey: string, desc: string, details: Option<string>, store: Store, responseKey: string)
    ensures var o := Event(serviceKey, "trigger", desc, details, store, responseKey);
            && o.sent == Some(Message(serviceKey, "trigger", desc, GetIncidentKey(store, StorageKey(serviceKey, desc)), details))
            && o.store == store[StorageKey(serviceKey, desc) := responseKey]
  {
    ResolveTrigger();
  }

  /** An event type naming neither resolve nor trigger does nothing. */
  lemma OtherEventIgnored(serviceKey: string, eventType: string, desc: string, details: Option<string>,
                          store: Store, responseKey: string)
    requires !Contains(eventType, "resolve") && !Contains(eventType, "trigger")
    ensures Event(serviceKey, eventType, desc, details, store, responseKey) == Outcome(None, store)
  {
  }

  /** A second trigger about the same host and script carries the incident
      key PagerDuty gave the first, so PagerDuty folds it into the same
      incident. */
  lemma TriggerTwice(serviceKey: string, desc1: string, desc2: string, details: Option<string>,
                     store: Store, responseKey1: string, responseKey2: string)
    requires HostScript(desc1) == HostScript(desc2)
    ensures var first := Event(serviceKey, "trigger", desc1, details, store, responseKey1);
            var second := Event(serviceKey, "trigger", desc2, details, first.store, responseKey2);
            second.sent.Some? && second.sent.value.incidentKey == Some(responseKey1)
  {
    ResolveTrigger();
  }

  /** A trigger followed by a resolve about the same host and script:
      the resolve carries the trigger's incident key, and afterwards the
      storage is as before the trigger, without that alert's key. */
  lemma TriggerThenResolve(serviceKey: string, desc1: string, desc2: string, details: Option<string>,
                           store: Store, responseKey: string, ignored: string)
    requires HostScript(desc1) == HostScript(desc2)
    requires responseKey != ""
    ensures var first := Event(serviceKey, "trigger", desc1, details, store, responseKey);
            var second := Event(serviceKey, "resolve", desc2, details, first.store, ignored);
            && second.sent == Some(Message(serviceKey, "resolve", desc2, Some(responseKey), details))
            && second.store == DelIncidentKey(store, StorageKey(serviceKey, desc1))
  {
    ResolveTrigger();
    var key := StorageKey(serviceKey, desc1);
    assert store[key := responseKey] - {key} == store - {key};
  }

  /** Resolving twice sends at most once: the second resolve finds no key. */
  lemma ResolveTwice(serviceKey: string, desc: string, details: Option<string>, store: Store,
                     responseKey1: string, responseKey2: string)
    ensures var first := Event(serviceKey, "resolve", desc, details, store, responseKey1);
            Event(serviceKey, "resolve", desc, details, first.store, responseKey2) == Outcome(None, first.store)
  {
    ResolveTrigger();
  }
}
