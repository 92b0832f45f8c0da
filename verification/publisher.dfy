/** internal/publisher/server.go: every receiver of every decodable event gets it, once per event. */
module Publishing {
  import opened Names
  import opened Routing
  import opened TriggerSpec
  import opened TriggerStorage
  import opened Wrappers

  /** The names of the stored channels, as the publisher consults them. */
  class ChannelStore {
    var channels: set<string>

    constructor ()
      ensures channels == {}
    {
      channels := {};
    }

    method GetChannelExists(name: string) returns (exists_: bool)
      ensures exists_ <==> name in channels
    {
      return name in channels;
    }
  }

  /** Dispatching records the delivery; its status and error are arbitrary. */
  class Dispatcher {
    ghost var log: seq<(Trigger, Event)>

    constructor ()
      ensures log == []
    {
      log := [];
    }

    method Dispatch(trigger: TriggerMessage, event: Event) returns (status: int, failed: bool)
      modifies this
      ensures log == old(log) + [(trigger.Value(), event)]
    {
      log := log + [(trigger.Value(), event)];
      status, failed := *, *;
    }
  }

  // ---- From the message to the event -------------------------------------------------------

  /** A published event: its attributes as strings, and the content type that its data implies, "" without data. */
  datatype Message = Message(id: string, source: string, typ: string, attributes: map<string, string>, dataType: string)

  function Attribute(m: Message, name: string): string {
    if name in m.attributes then m.attributes[name] else ""
  }

  /** The attribute is offered to the SDK as an extension, which keeps it under the name x. */
  predicate KeptAs(m: Message, keeps: string -> Option<string>, k: string, x: string) {
    k in m.attributes && k !in {"subject", "datacontenttype", "dataschema"} && keeps(k) == Some(x)
  }

  /** The event without extensions. */
  function BareEvent(m: Message): Event {
    var contentType := Attribute(m, "datacontenttype");
    Event(m.typ, m.source, Attribute(m, "subject"), m.id, if contentType == "" then m.dataType else contentType, map[])
  }

  /**
   protoCloudEventToSDK: subject, datacontenttype and dataschema are set as such, every other attribute is offered to
   the SDK, which refuses some names and may normalise others. Of several attributes kept under one name the last in
   the iteration order of the map stays, so the message can become several events.
   */
  ghost predicate MayBecome(m: Message, keeps: string -> Option<string>, e: Event) {
    && e == BareEvent(m).(extensions := e.extensions)
    && (forall x :: x in e.extensions ==> exists k :: KeptAs(m, keeps, k, x) && e.extensions[x] == m.attributes[k])
    && (forall k, x :: KeptAs(m, keeps, k, x) ==> x in e.extensions)
  }

  /** A filter and a condition see the same value of every attribute that the condition sees. */
  ghost predicate SeenAlike(e: Event) {
    forall attr :: attr in EventAttrs(e) ==> EventAttrs(e)[attr] == AttrValue(e, attr)
  }

  /** Any one of the attributes kept under a name can be the one that stays. */
  lemma AnyAttributeStays(m: Message, keeps: string -> Option<string>, k: string, x: string) returns (e: Event)
    requires KeptAs(m, keeps, k, x)
    ensures MayBecome(m, keeps, e) && x in e.extensions && e.extensions[x] == m.attributes[k]
  {
    var names := set j | j in m.attributes && keeps(j).Some? && KeptAs(m, keeps, j, keeps(j).value) :: keeps(j).value;
    var values := SomeAttributeStays(m, keeps, names);
    assert x in names;
    e := BareEvent(m).(extensions := values[x := m.attributes[k]]);
    assert forall j, y :: KeptAs(m, keeps, j, y) ==> y in names;
  }

  lemma {:induction false} SomeAttributeStays(m: Message, keeps: string -> Option<string>, names: set<string>)
    returns (values: map<string, string>)
    requires forall x :: x in names ==> exists k :: KeptAs(m, keeps, k, x)
    ensures values.Keys == names
    ensures forall x :: x in values ==> exists k :: KeptAs(m, keeps, k, x) && values[x] == m.attributes[k]
  {
    values := map[];
    if names != {} {
      var x :| x in names;
      var k :| KeptAs(m, keeps, k, x);
      var others := SomeAttributeStays(m, keeps, names - {x});
      values := others[x := m.attributes[k]];
    }
  }

  /**
   A filter and a condition see the same values of whatever event a published message becomes if and only if the SDK
   keeps no attribute of it under the name of a standard one with another value.
   */
  lemma PublishedEventsAgreeIff(m: Message, keeps: string -> Option<string>)
    ensures (forall e :: MayBecome(m, keeps, e) ==> SeenAlike(e))
            <==> (forall k, x :: KeptAs(m, keeps, k, x) && x in STANDARD ==> m.attributes[k] == AttrValue(BareEvent(m), x))
  {
    forall e | MayBecome(m, keeps, e)
      ensures SeenAlike(e) <==> (forall x :: x in e.extensions && x in STANDARD ==> e.extensions[x] == AttrValue(BareEvent(m), x))
    {
      FiltersSeeWhatConditionsSeeIff(e);
      BareEventSeesStandard(m, e);
    }
    if k, x :| KeptAs(m, keeps, k, x) && x in STANDARD && m.attributes[k] != AttrValue(BareEvent(m), x) {
      var e := AnyAttributeStays(m, keeps, k, x);
    }
  }

  /** What a filter sees of a published message, whatever the SDK does with the other attributes. */
  lemma FiltersSeeMessage(m: Message, keeps: string -> Option<string>, e: Event)
    requires MayBecome(m, keeps, e)
    ensures AttrValue(e, "type") == m.typ && AttrValue(e, "source") == m.source && AttrValue(e, "id") == m.id
    ensures AttrValue(e, "subject") == if "subject" in m.attributes then m.attributes["subject"] else ""
    ensures AttrValue(e, "datacontenttype") ==
            if "datacontenttype" in m.attributes && m.attributes["datacontenttype"] != "" then m.attributes["datacontenttype"]
            else m.dataType
  {
    AttributesRead(e.typ, e.source, e.subject, e.id, e.dataContentType, e.extensions);
  }

  /** If the SDK keeps every name as it is, the extensions are the attributes but for three. */
  lemma PlainExtensions(m: Message, e: Event)
    requires MayBecome(m, name => Some(name), e)
    ensures e.extensions == m.attributes - {"subject", "datacontenttype", "dataschema"}
  {
    assert forall k :: k in m.attributes && k !in {"subject", "datacontenttype", "dataschema"} ==> KeptAs(m, name => Some(name), k, k);
  }

  lemma BareEventSeesStandard(m: Message, e: Event)
    requires e == BareEvent(m).(extensions := e.extensions)
    ensures forall x :: x in STANDARD ==> AttrValue(e, x) == AttrValue(BareEvent(m), x)
  {
  }

  // ---- What is to be delivered -------------------------------------------------------------

  type Decoder = string -> Option<Event>

  /** The events that an array of packed messages decodes to: nil and undecodable entries are skipped. */
  function Decoded(packed: seq<Option<string>>, decode: Decoder): seq<Event> {
    if packed == [] then []
    else
      var last := packed[|packed| - 1];
      var earlier := Decoded(packed[..|packed| - 1], decode);
      if last.Some? && decode(last.value).Some? then earlier + [decode(last.value).value] else earlier
  }

  ghost function DeliveriesOf(c: Contents, parent: string, e: Event, cel: Cel): multiset<(Trigger, Event)> {
    multiset(set t | t in Receivers(c, parent, e, cel) :: (t, e))
  }

  ghost function Deliveries(c: Contents, parent: string, events: seq<Event>, cel: Cel): multiset<(Trigger, Event)> {
    if events == [] then multiset{}
    else Deliveries(c, parent, events[..|events| - 1], cel) + DeliveriesOf(c, parent, events[|events| - 1], cel)
  }

  /** A trigger is owed an event as often as the event was published, if it is keyed under the parent and receives it. */
  lemma {:induction false} EachReceiverOncePerEvent(c: Contents, parent: string, events: seq<Event>, cel: Cel, t: Trigger, e: Event)
    ensures Deliveries(c, parent, events, cel)[(t, e)] == if t in Receivers(c, parent, e, cel) then multiset(events)[e] else 0
  {
    if events != [] {
      var earlier, last := events[..|events| - 1], events[|events| - 1];
      EachReceiverOncePerEvent(c, parent, earlier, cel, t, e);
      assert events == earlier + [last];
    }
  }

  /** The entries of a published array that decode to the event. */
  ghost function EntriesOf(packed: seq<Option<string>>, decode: Decoder, e: Event): set<nat> {
    set k: nat | k < |packed| && packed[k].Some? && decode(packed[k].value) == Some(e)
  }

  predicate DecodesTo(entry: Option<string>, decode: Decoder, e: Event) {
    entry.Some? && decode(entry.value) == Some(e)
  }

  lemma EntriesNext(packed: seq<Option<string>>, decode: Decoder, e: Event)
    requires packed != []
    ensures var k := |packed| - 1;
            |EntriesOf(packed, decode, e)| == |EntriesOf(packed[..k], decode, e)| + if DecodesTo(packed[k], decode, e) then 1 else 0
  {
    var k := |packed| - 1;
    var earlier := EntriesOf(packed[..k], decode, e);
    assert forall j :: 0 <= j < k ==> packed[..k][j] == packed[j];
    assert EntriesOf(packed, decode, e) == earlier + if DecodesTo(packed[k], decode, e) then {k} else {};
  }

  lemma DecodedNext(packed: seq<Option<string>>, decode: Decoder, e: Event)
    requires packed != []
    ensures var k := |packed| - 1;
            multiset(Decoded(packed, decode))[e]
            == multiset(Decoded(packed[..k], decode))[e] + if DecodesTo(packed[k], decode, e) then 1 else 0
  {
  }

  /** An event is decoded as often as there are entries that decode to it. */
  lemma {:induction false} DecodedCounts(packed: seq<Option<string>>, decode: Decoder, e: Event)
    ensures multiset(Decoded(packed, decode))[e] == |EntriesOf(packed, decode, e)|
  {
    if packed == [] {
      assert EntriesOf(packed, decode, e) == {};
    } else {
      DecodedCounts(packed[..|packed| - 1], decode, e);
      EntriesNext(packed, decode, e);
      DecodedNext(packed, decode, e);
    }
  }

  /** The trigger is stored under the parent, and receives the event. */
  ghost predicate IsReceiver(c: Contents, parent: string, t: Trigger, e: Event, cel: Cel) {
    t.name in c && c[t.name] == t && parent + "/triggers/" <= t.name && Receives(t, e, cel)
  }

  lemma ReceiversIff(c: Contents, parent: string, t: Trigger, e: Event, cel: Cel)
    requires KeyedByName(c)
    ensures t in Receivers(c, parent, e, cel) <==> IsReceiver(c, parent, t, e, cel)
  {
  }

  /** Each receiver gains each event as often as there are entries that decode to it, and nothing else is delivered. */
  ghost predicate DeliversEntries(before: seq<(Trigger, Event)>, after: seq<(Trigger, Event)>, c: Contents, parent: string,
                                  packed: seq<Option<string>>, decode: Decoder, cel: Cel) {
    forall t, e :: multiset(after)[(t, e)]
                   == multiset(before)[(t, e)] + if IsReceiver(c, parent, t, e, cel) then |EntriesOf(packed, decode, e)| else 0
  }

  /** The deliveries of the entries follow each other in the order of the array; those of one entry come in any order. */
  ghost predicate DeliversInOrder(before: seq<(Trigger, Event)>, after: seq<(Trigger, Event)>, c: Contents, parent: string,
                                  packed: seq<Option<string>>, decode: Decoder, cel: Cel)
    decreases |packed|
  {
    if packed == [] then after == before
    else
      var k := |packed| - 1;
      exists mid ::
        && DeliversInOrder(before, mid, c, parent, packed[..k], decode, cel)
        && DeliversEntry(mid, after, c, parent, packed[k], decode, cel)
  }

  ghost predicate DeliversEntry(before: seq<(Trigger, Event)>, after: seq<(Trigger, Event)>, c: Contents, parent: string,
                                entry: Option<string>, decode: Decoder, cel: Cel) {
    before <= after &&
    multiset(after[|before|..]) ==
    if entry.Some? && decode(entry.value).Some? then DeliveriesOf(c, parent, decode(entry.value).value, cel) else multiset{}
  }

  lemma OneMoreDelivers(before: seq<(Trigger, Event)>, mid: seq<(Trigger, Event)>, after: seq<(Trigger, Event)>, c: Contents,
                        parent: string, packed: seq<Option<string>>, k: nat, decode: Decoder, cel: Cel)
    requires k < |packed| && DeliversInOrder(before, mid, c, parent, packed[..k], decode, cel)
    requires DeliversEntry(mid, after, c, parent, packed[k], decode, cel)
    ensures DeliversInOrder(before, after, c, parent, packed[..k + 1], decode, cel)
  {
    assert packed[..k + 1][..k] == packed[..k] && packed[..k + 1][k] == packed[k];
  }

  lemma SuffixGains<T>(before: seq<T>, after: seq<T>, gained: multiset<T>)
    requires before <= after && multiset(after) == multiset(before) + gained
    ensures multiset(after[|before|..]) == gained
  {
    var suffix := after[|before|..];
    assert after == before + suffix;
    assert multiset(before) + multiset(suffix) == multiset(before) + gained;
    assert forall x :: (multiset(before) + multiset(suffix))[x] == multiset(before)[x] + multiset(suffix)[x];
    assert forall x :: (multiset(before) + gained)[x] == multiset(before)[x] + gained[x];
  }

  lemma EntryDelivers(before: seq<(Trigger, Event)>, after: seq<(Trigger, Event)>, c: Contents, parent: string,
                      entry: Option<string>, decode: Decoder, cel: Cel)
    requires DeliversEntry(before, after, c, parent, entry, decode, cel)
    ensures multiset(after) == multiset(before) +
            if entry.Some? && decode(entry.value).Some? then DeliveriesOf(c, parent, decode(entry.value).value, cel) else multiset{}
  {
    assert after == before + after[|before|..];
  }

  /** So together they are what the decodable entries are owed. */
  lemma {:induction false} InOrderDelivers(before: seq<(Trigger, Event)>, after: seq<(Trigger, Event)>, c: Contents, parent: string,
                                           packed: seq<Option<string>>, decode: Decoder, cel: Cel)
    requires DeliversInOrder(before, after, c, parent, packed, decode, cel)
    ensures before <= after
    ensures multiset(after) == multiset(before) + Deliveries(c, parent, Decoded(packed, decode), cel)
    decreases |packed|
  {
    if packed != [] {
      var k := |packed| - 1;
      var mid :|
        && DeliversInOrder(before, mid, c, parent, packed[..k], decode, cel)
        && DeliversEntry(mid, after, c, parent, packed[k], decode, cel);
      InOrderDelivers(before, mid, c, parent, packed[..k], decode, cel);
      EntryDelivers(mid, after, c, parent, packed[k], decode, cel);
      OneMoreOwed(c, parent, packed, decode, cel);
    }
  }

  lemma OneMoreOwed(c: Contents, parent: string, packed: seq<Option<string>>, decode: Decoder, cel: Cel)
    requires packed != []
    ensures var k := |packed| - 1;
            Deliveries(c, parent, Decoded(packed, decode), cel) == Deliveries(c, parent, Decoded(packed[..k], decode), cel) +
            if packed[k].Some? && decode(packed[k].value).Some?
            then DeliveriesOf(c, parent, decode(packed[k].value).value, cel) else multiset{}
  {
    var k := |packed| - 1;
    var earlier := Decoded(packed[..k], decode);
    if packed[k].Some? && decode(packed[k].value).Some? {
      assert (earlier + [decode(packed[k].value).value])[..|earlier|] == earlier;
    }
  }

  lemma DeliveriesAreEntries(before: seq<(Trigger, Event)>, after: seq<(Trigger, Event)>, c: Contents, parent: string,
                             packed: seq<Option<string>>, decode: Decoder, cel: Cel)
    requires KeyedByName(c) && multiset(after) == multiset(before) + Deliveries(c, parent, Decoded(packed, decode), cel)
    ensures DeliversEntries(before, after, c, parent, packed, decode, cel)
  {
    forall t, e
      ensures multiset(after)[(t, e)]
              == multiset(before)[(t, e)] + if IsReceiver(c, parent, t, e, cel) then |EntriesOf(packed, decode, e)| else 0
    {
      EachReceiverOncePerEvent(c, parent, Decoded(packed, decode), cel, t, e);
      DecodedCounts(packed, decode, e);
      ReceiversIff(c, parent, t, e, cel);
    }
  }

  ghost function Tagged(values: seq<Trigger>, e: Event): (r: seq<(Trigger, Event)>)
    ensures |r| == |values|
    ensures forall k :: 0 <= k < |r| ==> r[k] == (values[k], e)
  {
    seq(|values|, k requires 0 <= k < |values| => (values[k], e))
  }

  lemma {:induction false} DistinctIsSet<T(!new)>(s: seq<T>, elements: set<T>)
    requires forall i, j :: 0 <= i < j < |s| ==> s[i] != s[j]
    requires forall x :: x in s <==> x in elements
    ensures multiset(s) == multiset(elements)
  {
    if s == [] {
      assert elements == {};
    } else {
      var last := s[|s| - 1];
      forall x ensures x in s[..|s| - 1] <==> x in elements - {last} {
        assert s == s[..|s| - 1] + [last];
      }
      DistinctIsSet(s[..|s| - 1], elements - {last});
      assert s == s[..|s| - 1] + [last];
      assert multiset(elements) == multiset(elements - {last}) + multiset{last};
    }
  }

  lemma TaggedIsDeliveries(values: seq<Trigger>, c: Contents, parent: string, e: Event, cel: Cel)
    requires ListsReceivers(values, c, parent, e, cel)
    ensures multiset(Tagged(values, e)) == DeliveriesOf(c, parent, e, cel)
  {
    var tagged := Tagged(values, e);
    var owed := set t | t in Receivers(c, parent, e, cel) :: (t, e);
    forall i, j | 0 <= i < j < |tagged| ensures tagged[i] != tagged[j] {
      assert values[i].name != values[j].name;
    }
    forall d ensures d in tagged <==> d in owed {
      if d in owed {
        assert d.0 in values;
        var k :| 0 <= k < |values| && values[k] == d.0;
        assert tagged[k] == d;
      }
      if d in tagged {
        var k :| 0 <= k < |tagged| && tagged[k] == d;
        assert values[k] in values;
      }
    }
    DistinctIsSet(tagged, owed);
  }

  // ---- The publisher -----------------------------------------------------------------------

  class Publisher {
    const router: Router
    const dispatcher: Dispatcher
    const channels: ChannelStore
    const decode: Decoder

    constructor (router: Router, dispatcher: Dispatcher, channels: ChannelStore, decode: Decoder)
      ensures this.router == router && this.dispatcher == dispatcher && this.channels == channels && this.decode == decode
    {
      this.router, this.dispatcher, this.channels, this.decode := router, dispatcher, channels, decode;
    }

    method DispatchAll(triggers: seq<TriggerMessage>, event: Event, ghost values: seq<Trigger>)
      requires Mirrors(triggers, values)
      modifies dispatcher
      ensures dispatcher.log == old(dispatcher.log) + Tagged(values, event)
    {
      for k := 0 to |triggers|
        invariant Mirrors(triggers, values)
        invariant dispatcher.log == old(dispatcher.log) + Tagged(values[..k], event)
      {
        var status, failed := dispatcher.Dispatch(triggers[k], event);
        assert Tagged(values[..k + 1], event) == Tagged(values[..k], event) + [(values[k], event)];
      }
      assert values[..|values|] == values;
    }

    /** matchAndDispatch: dispatch failures do not stop the loop. */
    method MatchAndDispatch(parent: string, event: Event)
      requires router.storage.Valid()
      modifies dispatcher
      ensures router.storage.Valid() && router.storage.Contents() == old(router.storage.Contents())
      ensures old(dispatcher.log) <= dispatcher.log
      ensures multiset(dispatcher.log)
              == multiset(old(dispatcher.log)) + DeliveriesOf(old(router.storage.Contents()), parent, event, router.cel)
    {
      var triggers;
      ghost var values;
      triggers, values := router.Match(parent, event);
      TaggedIsDeliveries(values, old(router.storage.Contents()), parent, event, router.cel);
      DispatchAll(triggers, event, values);
    }

    /** processAnySlice: nil and undecodable entries are skipped. */
    method ProcessAnySlice(parent: string, anySlice: seq<Option<string>>)
      requires router.storage.Valid()
      modifies dispatcher
      ensures old(dispatcher.log) <= dispatcher.log
      ensures multiset(dispatcher.log) == multiset(old(dispatcher.log))
              + Deliveries(old(router.storage.Contents()), parent, Decoded(anySlice, decode), router.cel)
      ensures DeliversEntries(old(dispatcher.log), dispatcher.log, old(router.storage.Contents()), parent, anySlice, decode, router.cel)
      ensures DeliversInOrder(old(dispatcher.log), dispatcher.log, old(router.storage.Contents()), parent, anySlice, decode, router.cel)
    {
      ghost var before, c := dispatcher.log, router.storage.Contents();
      ProcessEntries(parent, anySlice);
      InOrderDelivers(before, dispatcher.log, c, parent, anySlice, decode, router.cel);
      DeliveriesAreEntries(before, dispatcher.log, c, parent, anySlice, decode, router.cel);
    }

    /** Its loop. */
    method ProcessEntries(parent: string, anySlice: seq<Option<string>>)
      requires router.storage.Valid()
      modifies dispatcher
      ensures DeliversInOrder(old(dispatcher.log), dispatcher.log, old(router.storage.Contents()), parent, anySlice, decode, router.cel)
    {
      ghost var before, c := dispatcher.log, router.storage.Contents();
      for k := 0 to |anySlice|
        invariant router.storage.Valid() && router.storage.Contents() == c
        invariant DeliversInOrder(before, dispatcher.log, c, parent, anySlice[..k], decode, router.cel)
      {
        ghost var mid := dispatcher.log;
        ProcessEntry(parent, anySlice[k]);
        OneMoreDelivers(before, mid, dispatcher.log, c, parent, anySlice, k, decode, router.cel);
      }
      assert anySlice[..|anySlice|] == anySlice;
    }

    /** One turn of it. */
    method ProcessEntry(parent: string, entry: Option<string>)
      requires router.storage.Valid()
      modifies dispatcher
      ensures router.storage.Valid() && router.storage.Contents() == old(router.storage.Contents())
      ensures DeliversEntry(old(dispatcher.log), dispatcher.log, old(router.storage.Contents()), parent, entry, decode, router.cel)
    {
      if entry.Some? {
        var event := decode(entry.value);
        if event.Some? {
          MatchAndDispatch(parent, event.value);
          SuffixGains(old(dispatcher.log), dispatcher.log,
                      DeliveriesOf(old(router.storage.Contents()), parent, event.value, router.cel));
        }
      }
    }

    /**
     PublishEvents: an accepted call adds exactly the deliveries owed, whatever the dispatches return; a call for an
     unknown channel adds none.
     */
    method PublishEvents(channel: string, events: seq<Option<string>>) returns (r: Result<()>)
      requires router.storage.Valid()
      modifies dispatcher
      ensures r == if channel != "" && channel !in channels.channels then Err(NotFound) else Ok(())
      ensures old(dispatcher.log) <= dispatcher.log
      ensures r.Err? ==> dispatcher.log == old(dispatcher.log)
      ensures r.Ok? ==>
                multiset(dispatcher.log) == multiset(old(dispatcher.log))
                + Deliveries(old(router.storage.Contents()), ParentFromChannel(channel), Decoded(events, decode), router.cel)
      ensures r.Ok? ==>
                DeliversEntries(old(dispatcher.log), dispatcher.log, old(router.storage.Contents()), ParentFromChannel(channel), events,
                                decode, router.cel)
      ensures r.Ok? ==>
                DeliversInOrder(old(dispatcher.log), dispatcher.log, old(router.storage.Contents()), ParentFromChannel(channel), events,
                                decode, router.cel)
    {
      if channel != "" {
        var found := channels.GetChannelExists(channel);
        if !found {
          return Err(NotFound);
        }
      }
      assert router.storage.Contents() == old(router.storage.Contents());
      ProcessAnySlice(ParentFromChannel(channel), events);
      return Ok(());
    }

    /** PublishChannelConnectionEvents: the connection need not exist. */
    method PublishChannelConnectionEvents(connection: string, events: seq<Option<string>>)
      requires router.storage.Valid()
      modifies dispatcher
      ensures old(dispatcher.log) <= dispatcher.log
      ensures multiset(dispatcher.log) == multiset(old(dispatcher.log))
              + Deliveries(old(router.storage.Contents()), ParentFromChannelConnection(connection), Decoded(events, decode), router.cel)
      ensures DeliversEntries(old(dispatcher.log), dispatcher.log, old(router.storage.Contents()),
                              ParentFromChannelConnection(connection), events, decode, router.cel)
      ensures DeliversInOrder(old(dispatcher.log), dispatcher.log, old(router.storage.Contents()),
                              ParentFromChannelConnection(connection), events, decode, router.cel)
    {
      ProcessAnySlice(ParentFromChannelConnection(connection), events);
    }
  }

  /** The parent whose triggers are consulted is the one that the channel's name was formatted from. */
  lemma ChannelParent(parent: string, id: string)
    requires '/' !in id
    ensures ParentFromChannel(Format(parent, "channels", id)) == parent
  {
    ParentBeforeMarker(parent, "channels", id, "/channels/");
  }

  lemma ChannelConnectionParent(parent: string, id: string)
    requires '/' !in id
    ensures ParentFromChannelConnection(Format(parent, "channelConnections", id)) == parent
  {
    ParentBeforeMarker(parent, "channelConnections", id, "/channelConnections/");
  }
}
