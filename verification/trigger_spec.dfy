/** Trigger contents as values, and what each storage operation does to the map of stored triggers. */
module TriggerSpec {
  import opened FieldMasks
  import opened Names
  import opened Wrappers

  datatype Filter = Filter(attribute: string, value: string, operator: string)

  datatype Trigger = Trigger(
    name: string, uid: string, createTime: int, updateTime: int, etag: string, conditions: map<string, int>,
    labels: map<string, string>, destination: Option<string>, eventFilters: seq<Filter>,
    serviceAccount: string, channel: string)

  type Contents = map<string, Trigger>

  const READY: map<string, int> := map["Ready" := 0]

  function Created(parent: string, id: string, req: Trigger, stamp: Stamp): Trigger {
    req.(name := Format(parent, "triggers", id), uid := stamp.uid, createTime := stamp.now, updateTime := stamp.now,
         etag := stamp.etag, conditions := READY)
  }

  /** An update: field by field, the requested value where the mask covers the field and the stored value elsewhere. */
  function Updated(stored: Trigger, req: Trigger, mask: FieldMask, stamp: Stamp): Trigger {
    stored.(
      labels := if Masks(mask, "labels") then req.labels else stored.labels,
      destination := if Masks(mask, "destination") then req.destination else stored.destination,
      eventFilters := if Masks(mask, "event_filters") then req.eventFilters else stored.eventFilters,
      serviceAccount := if Masks(mask, "service_account") then req.serviceAccount else stored.serviceAccount,
      channel := if Masks(mask, "channel") then req.channel else stored.channel,
      updateTime := stamp.now, etag := stamp.etag, conditions := READY)
  }

  // ---- The atomic steps on the stored map --------------------------------------------------

  /** A create that finds the name taken fails and changes nothing. */
  function AfterCreate(c: Contents, parent: string, id: string, req: Trigger, stamp: Stamp): Contents {
    var name := Format(parent, "triggers", id);
    if name in c then c else c[name := Created(parent, id, req, stamp)]
  }

  /** An update of a missing name fails and changes nothing. */
  function AfterUpdate(c: Contents, req: Trigger, mask: FieldMask, stamp: Stamp): Contents {
    if req.name in c then c[req.name := Updated(c[req.name], req, mask, stamp)] else c
  }

  datatype Step =
    | Create(parent: string, id: string, req: Trigger, stamp: Stamp)
    | Update(req: Trigger, mask: FieldMask, stamp: Stamp)
    | Delete(name: string)
    | Clear

  function After(c: Contents, step: Step): Contents {
    match step
    case Create(parent, id, req, stamp) => AfterCreate(c, parent, id, req, stamp)
    case Update(req, mask, stamp) => AfterUpdate(c, req, mask, stamp)
    case Delete(name) => c - {name}
    case Clear => map[]
  }

  /** Every key is the stored resource's own name. */
  ghost predicate KeyedByName(c: Contents) {
    forall n :: n in c ==> c[n].name == n
  }

  // ---- The mask theorem --------------------------------------------------------------------

  const FIELDS: set<string> := {"labels", "destination", "event_filters", "service_account", "channel"}

  /**
   Two masks do the same to every trigger exactly when they cover the same mutable fields. So the order and
   multiplicity of paths and unknown paths never matter, and nil, ["*"] and any list of all five fields agree.
   */
  lemma MasksAgreeIff(a: FieldMask, b: FieldMask)
    ensures (forall stored, req, stamp :: Updated(stored, req, a, stamp) == Updated(stored, req, b, stamp))
            <==> (forall f :: f in FIELDS ==> (Masks(a, f) <==> Masks(b, f)))
  {
    if forall stored, req, stamp :: Updated(stored, req, a, stamp) == Updated(stored, req, b, stamp) {
      var blank := Trigger("", "", 0, 0, "", map[], map[], None, [], "", "");
      var full := Trigger("", "", 0, 0, "", map[], map["k" := "v"], Some("d"), [Filter("a", "v", "")], "s", "c");
      assert "k" in full.labels && "k" !in blank.labels;
      var stamp := Stamp(0, "", "");
      assert Updated(blank, full, a, stamp) == Updated(blank, full, b, stamp);
    }
  }

  /** Updating with one mask and then with another is one update with both masks, under the second stamp. */
  lemma MasksCompose(stored: Trigger, req: Trigger, a: seq<string>, b: seq<string>, first: Stamp, second: Stamp)
    ensures Updated(Updated(stored, req, Some(a), first), req, Some(b), second)
            == Updated(stored, req, Some(a + b), second)
  {
  }

  lemma PathsDiffer()
    ensures |"labels"| == 6 && |"destination"| == 11 && |"event_filters"| == 13
    ensures |"service_account"| == 15 && |"channel"| == 7 && |"*"| == 1
  {
  }

  /** What a single path writes, path by path, beside the stamp. */
  lemma UpdatedByPath(stored: Trigger, req: Trigger, path: string, stamp: Stamp)
    ensures var stamped := stored.(updateTime := stamp.now, etag := stamp.etag, conditions := map["Ready" := 0]);
            Updated(stored, req, Some([path]), stamp) ==
            match path
            case "*" => stamped.(labels := req.labels, destination := req.destination, eventFilters := req.eventFilters,
                                 serviceAccount := req.serviceAccount, channel := req.channel)
            case "labels" => stamped.(labels := req.labels)
            case "destination" => stamped.(destination := req.destination)
            case "event_filters" => stamped.(eventFilters := req.eventFilters)
            case "service_account" => stamped.(serviceAccount := req.serviceAccount)
            case "channel" => stamped.(channel := req.channel)
            case _ => stamped
  {
    PathsDiffer();
    SinglePath(path);
  }

  /** An update without a mask writes what "*" writes. */
  lemma UpdatedByNil(stored: Trigger, req: Trigger, stamp: Stamp)
    ensures Updated(stored, req, None, stamp) == Updated(stored, req, Some(["*"]), stamp)
  {
  }
}
