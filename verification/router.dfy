/** internal/router/router.go: which stored triggers receive an event. */
module Routing {
  import opened Listing
  import opened PathPattern
  import opened TriggerSpec
  import opened TriggerStorage

  datatype Event = Event(
    typ: string, source: string, subject: string, id: string, dataContentType: string, extensions: map<string, string>)

  /** A condition evaluated on the event's attributes; every compilation or evaluation error counts as false. */
  type Cel = (string, map<string, string>) -> bool

  const CONDITION_LABEL: string := "eventarc-emulator/condition"

  function AttrValue(e: Event, attr: string): string {
    match attr
    case "type" => e.typ
    case "source" => e.source
    case "subject" => e.subject
    case "id" => e.id
    case "datacontenttype" => e.dataContentType
    case _ => if attr in e.extensions then e.extensions[attr] else ""
  }

  /** eventAttrsAsStrings: extensions override the standard attributes of the same name. */
  function EventAttrs(e: Event): map<string, string> {
    map["type" := e.typ, "source" := e.source, "subject" := e.subject, "id" := e.id] + e.extensions
  }

  function Condition(t: Trigger): string {
    if CONDITION_LABEL in t.labels then t.labels[CONDITION_LABEL] else ""
  }

  // ---- Meaning -----------------------------------------------------------------------------

  predicate IsPathOperator(operator: string) {
    operator == "match-path-pattern" || operator == "path_pattern"
  }

  ghost predicate FilterHolds(f: Filter, e: Event) {
    if IsPathOperator(f.operator) then PathMatches(f.value, AttrValue(e, f.attribute))
    else AttrValue(e, f.attribute) == f.value
  }

  /** All filters hold, and so does the condition if there is one. */
  ghost predicate Receives(t: Trigger, e: Event, cel: Cel) {
    && (forall f :: f in t.eventFilters ==> FilterHolds(f, e))
    && (Condition(t) == "" || cel(Condition(t), EventAttrs(e)))
  }

  /** The triggers keyed under the parent that receive the event. */
  ghost function Receivers(c: Contents, parent: string, e: Event, cel: Cel): set<Trigger> {
    set n | n in c && parent + "/triggers/" <= n && Receives(c[n], e, cel) :: c[n]
  }

  /** Each receiver once, in any order. */
  ghost predicate ListsReceivers(values: seq<Trigger>, c: Contents, parent: string, e: Event, cel: Cel) {
    DistinctNames(values) && forall t :: t in values <==> t in Receivers(c, parent, e, cel)
  }

  /** On a filter value without wildcard segments the choice of operator makes no difference. */
  lemma OperatorsAgreeOnLiterals(f: Filter, operator: string, e: Event)
    requires Literal(GoStrings.Split(f.value))
    ensures FilterHolds(f.(operator := operator), e) <==> FilterHolds(f, e)
  {
    PathOperatorIsExactIffLiteral(f.value);
    assert PathMatches(f.value, AttrValue(e, f.attribute)) <==> f.value == AttrValue(e, f.attribute);
  }

  /** What the operator of a filter asks for, by its text: two operators glob on segments, all others compare. */
  lemma FilterMeans(f: Filter, e: Event)
    ensures FilterHolds(f, e)
            <==> if f.operator in {"match-path-pattern", "path_pattern"}
                 then Aligns(GoStrings.Split(f.value), GoStrings.Split(AttrValue(e, f.attribute)))
                 else f.value == AttrValue(e, f.attribute)
  {
  }

  /** Two operators are interchangeable, in every filter and for every event, if and only if both are path operators or neither is. */
  lemma OperatorsInterchangeableIff(a: string, b: string)
    ensures (forall f: Filter, e :: FilterHolds(f.(operator := a), e) <==> FilterHolds(f.(operator := b), e))
            <==> (a in {"match-path-pattern", "path_pattern"} <==> b in {"match-path-pattern", "path_pattern"})
  {
    if !(a in {"match-path-pattern", "path_pattern"} <==> b in {"match-path-pattern", "path_pattern"}) {
      StarIsNotLiteral();
      PathOperatorIsExactIffLiteral("*");
      var value :| !(PathMatches("*", value) <==> "*" == value);
      var f, e := Filter("subject", "*", ""), Event("", "", value, "", "", map[]);
      assert AttrValue(e, "subject") == value;
      assert FilterHolds(f.(operator := a), e) != FilterHolds(f.(operator := b), e);
    }
  }

  lemma StarIsNotLiteral()
    ensures !Literal(GoStrings.Split("*"))
  {
    GoStrings.SplitJoin(["*"]);
    assert GoStrings.Split("*") == ["*"];
  }

  /** What a filter reads of an event: the five standard attributes, otherwise the extension, otherwise nothing. */
  lemma AttributesRead(typ: string, source: string, subject: string, id: string, dataType: string, extensions: map<string, string>)
    ensures var e := Event(typ, source, subject, id, dataType, extensions);
            && AttrValue(e, "type") == typ && AttrValue(e, "source") == source && AttrValue(e, "subject") == subject
            && AttrValue(e, "id") == id && AttrValue(e, "datacontenttype") == dataType
            && forall attr :: attr !in {"type", "source", "subject", "id", "datacontenttype"} ==>
                 AttrValue(e, attr) == if attr in extensions then extensions[attr] else ""
  {
    assert |"type"| == 4 && |"source"| == 6 && |"subject"| == 7 && |"id"| == 2 && |"datacontenttype"| == 15;
  }

  /** What a condition reads: the extension if there is one, otherwise type, source, subject or id. */
  lemma AttributesSeen(e: Event, attr: string)
    ensures attr in EventAttrs(e) <==> attr in e.extensions || attr in {"type", "source", "subject", "id"}
    ensures attr in EventAttrs(e) ==>
              EventAttrs(e)[attr] == if attr in e.extensions then e.extensions[attr] else AttrValue(e, attr)
  {
    assert |"type"| == 4 && |"source"| == 6 && |"subject"| == 7 && |"id"| == 2;
  }

  /** A trigger receives an event just if every filter holds and its condition label, if set, evaluates to true. */
  lemma ReceivesIff(t: Trigger, e: Event, cel: Cel)
    ensures Receives(t, e, cel)
            <==> && (forall f :: f in t.eventFilters ==>
                       if f.operator in {"match-path-pattern", "path_pattern"}
                       then Aligns(GoStrings.Split(f.value), GoStrings.Split(AttrValue(e, f.attribute)))
                       else f.value == AttrValue(e, f.attribute))
                 && ("eventarc-emulator/condition" in t.labels && t.labels["eventarc-emulator/condition"] != "" ==>
                       cel(t.labels["eventarc-emulator/condition"], EventAttrs(e)))
  {
    forall f | f in t.eventFilters {
      FilterMeans(f, e);
    }
  }

  const STANDARD: set<string> := {"type", "source", "subject", "id", "datacontenttype"}

  /**
   Filters and conditions see the same values exactly when no extension gives a standard attribute another value: in
   a condition the extension wins, in a filter the standard attribute does.
   */
  lemma FiltersSeeWhatConditionsSeeIff(e: Event)
    ensures (forall attr :: attr in EventAttrs(e) ==> EventAttrs(e)[attr] == AttrValue(e, attr))
            <==> (forall attr :: attr in e.extensions && attr in STANDARD ==> e.extensions[attr] == AttrValue(e, attr))
  {
    assert forall attr :: attr in e.extensions ==> attr in EventAttrs(e) && EventAttrs(e)[attr] == e.extensions[attr];
  }

  // ---- The router --------------------------------------------------------------------------

  class Router {
    const storage: TriggerStore
    const cel: Cel

    constructor (storage: TriggerStore, cel: Cel)
      ensures this.storage == storage && this.cel == cel
    {
      this.storage, this.cel := storage, cel;
    }

    method TriggerMatches(trigger: TriggerMessage, event: Event) returns (ok: bool)
      ensures ok <==> Receives(trigger.Value(), event, cel)
    {
      var filters := trigger.FiltersValue();
      for k := 0 to |filters|
        invariant forall j :: 0 <= j < k ==> FilterHolds(filters[j], event)
      {
        var f := filters[k];
        var eventVal := AttrValue(event, f.attribute);
        if f.operator == "match-path-pattern" || f.operator == "path_pattern" {
          var matched := MatchPathPattern(f.value, eventVal);
          if !matched {
            assert f in filters;
            return false;
          }
        } else {
          if eventVal != f.value {
            assert f in filters;
            return false;
          }
        }
      }
      var condition := Condition(trigger.Value());
      if condition == "" {
        return true;
      }
      return cel(condition, EventAttrs(event));
    }

    /** Match: a copy of each receiver, once, in map order. The values are those of the messages. */
    method Match(parent: string, event: Event) returns (matched: seq<TriggerMessage>, ghost values: seq<Trigger>)
      requires storage.Valid()
      ensures Mirrors(matched, values) && ListsReceivers(values, old(storage.Contents()), parent, event, cel)
      ensures forall m :: m in matched ==> DeeplyFresh(m)
    {
      var triggers;
      ghost var all;
      triggers, all := storage.ListAllTriggers(parent);
      matched, values := SelectReceivers(triggers, event, all);
      ReceiversUnder(old(storage.Contents()), parent, all, values, event, cel);
    }

    /** The loop of Match. */
    method SelectReceivers(triggers: seq<TriggerMessage>, event: Event, ghost all: seq<Trigger>)
      returns (matched: seq<TriggerMessage>, ghost values: seq<Trigger>)
      requires Mirrors(triggers, all) && DistinctNames(all)
      ensures Mirrors(matched, values) && AreReceivers(values, all, event, cel)
      ensures forall m :: m in matched ==> m in triggers
    {
      matched, values := [], [];
      for k := 0 to |triggers|
        invariant Mirrors(triggers, all) && Mirrors(matched, values)
        invariant AreReceivers(values, all[..k], event, cel)
        invariant forall m :: m in matched ==> m in triggers
      {
        assert triggers[k].Value() == all[k];
        var ok := TriggerMatches(triggers[k], event);
        ReceiversNext(values, all, k, event, cel);
        if ok {
          matched := matched + [triggers[k]];
          values := values + [all[k]];
        }
      }
      assert all[..|all|] == all;
    }
  }

  ghost predicate AreReceivers(values: seq<Trigger>, all: seq<Trigger>, e: Event, cel: Cel) {
    DistinctNames(values) && forall t :: t in values <==> t in all && Receives(t, e, cel)
  }

  lemma ReceiversNext(values: seq<Trigger>, all: seq<Trigger>, k: nat, e: Event, cel: Cel)
    requires k < |all| && DistinctNames(all) && AreReceivers(values, all[..k], e, cel)
    ensures AreReceivers(if Receives(all[k], e, cel) then values + [all[k]] else values, all[..k + 1], e, cel)
  {
    assert all[..k + 1] == all[..k] + [all[k]];
    forall j | 0 <= j < |values| ensures values[j].name != all[k].name {
      assert values[j] in all[..k];
    }
  }

  lemma ReceiversUnder(c: Contents, parent: string, all: seq<Trigger>, values: seq<Trigger>, e: Event, cel: Cel)
    requires KeyedByName(c) && AllUnder(c, parent, all) && AreReceivers(values, all, e, cel)
    ensures ListsReceivers(values, c, parent, e, cel)
  {
    forall n | n in c && parent + "/triggers/" <= n ensures c[n] in all {
      assert n in NamesOf(all);
      var k :| 0 <= k < |all| && NamesOf(all)[k] == n;
      assert all[k] == c[n];
    }
    forall t | t in all ensures t.name in c && parent + "/triggers/" <= t.name && t == c[t.name] {
      NameIsListed(all, t);
    }
  }
}
