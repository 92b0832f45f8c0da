/**
 The enrollment half of internal/server/storage_messagebus.go: an update whose mask loop can stop half way, on the
 immutable field message_bus.
 */
module EnrollmentStorage {
  import opened Cells
  import opened FieldMasks
  import opened GoStrings
  import opened Names
  import opened Pagination
  import opened Sequences
  import opened Wrappers

  /** An enrollment whose label maps and destination are values, or references to them. */
  datatype Fields<L, D> = Fields(
    name: string, uid: string, etag: string, createTime: int, updateTime: int, messageBus: string,
    labels: L, annotations: L, displayName: string, celMatch: string, destination: D)

  type Enrollment = Fields<map<string, string>, Option<string>>

  type Enrollments = map<string, Enrollment>

  const MUTABLE: set<string> := {"labels", "annotations", "display_name", "cel_match", "destination"}

  // ---- Meaning -----------------------------------------------------------------------------

  /** The five mutable fields under a mask; everything else, message_bus included, as stored. */
  function Merged<L, D>(stored: Fields<L, D>, req: Fields<L, D>, mask: FieldMask): Fields<L, D> {
    stored.(
      labels := if Masks(mask, "labels") then req.labels else stored.labels,
      annotations := if Masks(mask, "annotations") then req.annotations else stored.annotations,
      displayName := if Masks(mask, "display_name") then req.displayName else stored.displayName,
      celMatch := if Masks(mask, "cel_match") then req.celMatch else stored.celMatch,
      destination := if Masks(mask, "destination") then req.destination else stored.destination)
  }

  /** How many paths the loop gets through: all, or those before the first message_bus. */
  function Applied(paths: seq<string>): (k: nat)
    ensures k <= |paths|
    ensures k < |paths| ==> paths[k] == "message_bus"
    ensures forall j :: 0 <= j < k ==> paths[j] != "message_bus"
  {
    if paths == [] || paths[0] == "message_bus" then 0 else 1 + Applied(paths[1..])
  }

  lemma StopsAtFirst(paths: seq<string>, i: nat)
    requires i < |paths| && paths[i] == "message_bus" && forall j :: 0 <= j < i ==> paths[j] != "message_bus"
    ensures Applied(paths) == i
  {
    var k := Applied(paths);
    assert k < |paths| ==> paths[k] == "message_bus";
  }

  predicate Rejected(mask: FieldMask) {
    mask.Some? && "message_bus" in mask.value
  }

  /** A rejected update keeps what the loop wrote before it met message_bus, but not the new etag and update time. */
  function Updated<L, D>(stored: Fields<L, D>, req: Fields<L, D>, mask: FieldMask, stamp: Stamp): Fields<L, D> {
    if Rejected(mask) then Merged(stored, req, Some(mask.value[..Applied(mask.value)]))
    else Merged(stored, req, mask).(updateTime := stamp.now, etag := stamp.etag)
  }

  function Created<L, D>(parent: string, id: string, req: Fields<L, D>, stamp: Stamp): Fields<L, D> {
    req.(name := Format(parent, "enrollments", id), uid := stamp.uid, etag := stamp.etag,
         createTime := stamp.now, updateTime := stamp.now)
  }

  function AfterCreate(c: Enrollments, parent: string, id: string, req: Enrollment, stamp: Stamp): Enrollments {
    var name := Format(parent, "enrollments", id);
    if name in c then c else c[name := Created(parent, id, req, stamp)]
  }

  function AfterUpdate(c: Enrollments, req: Enrollment, mask: FieldMask, stamp: Stamp): Enrollments {
    if req.name in c then c[req.name := Updated(c[req.name], req, mask, stamp)] else c
  }

  /**
   A rejected update is all-or-nothing for every stored enrollment and every request exactly when no mutable field and
   no "*" comes before message_bus in the mask.
   */
  lemma RejectionIsAtomicIff(paths: seq<string>)
    requires "message_bus" in paths
    ensures (forall stored: Enrollment, req, stamp :: Updated(stored, req, Some(paths), stamp) == stored)
            <==> (forall f :: f in MUTABLE ==> !Masks(Some(paths[..Applied(paths)]), f))
  {
    if forall stored: Enrollment, req, stamp :: Updated(stored, req, Some(paths), stamp) == stored {
      var blank: Enrollment := Fields("", "", "", 0, 0, "", map[], map[], "", "", None);
      var full: Enrollment := Fields("", "", "", 0, 0, "", map["k" := "v"], map["k" := "v"], "d", "c", Some("u"));
      assert "k" in full.labels && "k" !in blank.labels;
      assert Updated(blank, full, Some(paths), Stamp(0, "", "")) == blank;
    }
  }

  /**
   Two masks that are accepted do the same to every enrollment if and only if they cover the same mutable fields, so nil,
   ["*"] and every arrangement of all five paths agree.
   */
  lemma MasksAgreeIff(a: FieldMask, b: FieldMask)
    requires !Rejected(a) && !Rejected(b)
    ensures (forall stored: Enrollment, req, stamp :: Updated(stored, req, a, stamp) == Updated(stored, req, b, stamp))
            <==> (forall f :: f in MUTABLE ==> (Masks(a, f) <==> Masks(b, f)))
  {
    if forall stored: Enrollment, req, stamp :: Updated(stored, req, a, stamp) == Updated(stored, req, b, stamp) {
      var blank: Enrollment := Fields("", "", "", 0, 0, "", map[], map[], "", "", None);
      var full: Enrollment := Fields("", "", "", 0, 0, "", map["k" := "v"], map["k" := "v"], "d", "c", Some("u"));
      assert "k" in full.labels && "k" !in blank.labels;
      assert Updated(blank, full, a, Stamp(0, "", "")) == Updated(blank, full, b, Stamp(0, "", ""));
    }
  }

  /** An accepted update stamps the enrollment, a rejected one does not; neither touches what identifies it. */
  lemma UpdateStamps(stored: Enrollment, req: Enrollment, mask: FieldMask, stamp: Stamp)
    ensures var updated := Updated(stored, req, mask, stamp);
            && updated.name == stored.name && updated.uid == stored.uid && updated.createTime == stored.createTime
            && updated.messageBus == stored.messageBus
            && (if mask.Some? && "message_bus" in mask.value then updated.etag == stored.etag && updated.updateTime == stored.updateTime
                else updated.etag == stamp.etag && updated.updateTime == stamp.now)
  {
  }

  /** A create keeps what the request says but for the five fields that the server fills in. */
  lemma CreateFillsIn(parent: string, id: string, req: Enrollment, stamp: Stamp)
    ensures var created := Created(parent, id, req, stamp);
            && created.name == parent + "/enrollments/" + id && created.uid == stamp.uid && created.etag == stamp.etag
            && created.createTime == created.updateTime == stamp.now
            && created == req.(name := created.name, uid := created.uid, etag := created.etag, createTime := created.createTime,
                               updateTime := created.updateTime)
  {
    assert "/" + "enrollments" + "/" == "/enrollments/";
    assert Format(parent, "enrollments", id) == parent + "/enrollments/" + id;
  }

  /** The mask ["labels", "message_bus"] writes the labels and then fails. */
  lemma RejectedUpdateLeavesLabels(stored: Enrollment, req: Enrollment, stamp: Stamp)
    ensures Rejected(Some(["labels", "message_bus"]))
    ensures Updated(stored, req, Some(["labels", "message_bus"]), stamp) == stored.(labels := req.labels)
  {
    var paths := ["labels", "message_bus"];
    assert |"labels"| == 6 && |"message_bus"| == 11;
    StopsAtFirst(paths, 1);
    assert paths[1] == "message_bus" && paths[..1] == ["labels"];
    assert |"annotations"| == 11 && |"display_name"| == 12 && |"cel_match"| == 9 && |"destination"| == 11 && |"*"| == 1;
  }

  // ---- The store ---------------------------------------------------------------------------

  type References = Fields<Cell?<map<string, string>>, Cell?<string>>

  /** An Enrollment message in memory. */
  class EnrollmentMessage {
    var name: string
    var uid: string
    var etag: string
    var createTime: int
    var updateTime: int
    var messageBus: string
    var labels: Cell?<map<string, string>>
    var annotations: Cell?<map<string, string>>
    var displayName: string
    var celMatch: string
    var destination: Cell?<string>

    /** The fields as they are, sub-messages by reference. */
    function Refs(): References
      reads this
    {
      Fields(name, uid, etag, createTime, updateTime, messageBus, labels, annotations, displayName, celMatch, destination)
    }

    function Value(): Enrollment
      reads this, labels, annotations, destination
    {
      Deep(Refs())
    }

    /** The two messages share no memory. */
    ghost predicate Disjoint(that: EnrollmentMessage)
      reads this, that
    {
      && this != that
      && (labels != null ==> labels != that.labels && labels != that.annotations)
      && (annotations != null ==> annotations != that.labels && annotations != that.annotations)
      && (destination != null ==> destination != that.destination)
    }

    /** cloneProto: a deep copy. */
    constructor Clone(m: EnrollmentMessage)
      ensures Value() == m.Value()
      ensures labels != null ==> fresh(labels)
      ensures annotations != null ==> fresh(annotations)
      ensures destination != null ==> fresh(destination)
    {
      name, uid, etag, createTime, updateTime := m.name, m.uid, m.etag, m.createTime, m.updateTime;
      messageBus, displayName, celMatch := m.messageBus, m.displayName, m.celMatch;
      var l := CloneCell(m.labels);
      var a := CloneCell(m.annotations);
      var d := CloneCell(m.destination);
      labels, annotations, destination := l, a, d;
    }
  }

  function Deep(refs: References): Enrollment
    reads refs.labels, refs.annotations, refs.destination
  {
    Fields(refs.name, refs.uid, refs.etag, refs.createTime, refs.updateTime, refs.messageBus,
           Read(refs.labels, map[]), Read(refs.annotations, map[]), refs.displayName, refs.celMatch,
           if refs.destination == null then None else Some(refs.destination.value))
  }

  /** Everything reachable from the message was allocated since the old state. */
  twostate predicate DeeplyFresh(new m: EnrollmentMessage)
    reads m
  {
    && fresh(m) && (m.labels != null ==> fresh(m.labels))
    && (m.annotations != null ==> fresh(m.annotations)) && (m.destination != null ==> fresh(m.destination))
  }

  /** What a single path does, path by path: the text of the switch. */
  lemma MergedByPath<L, D>(v: Fields<L, D>, en: Fields<L, D>, path: string)
    ensures Merged(v, en, Some([path])) ==
            match path
            case "*" => v.(labels := en.labels, annotations := en.annotations, displayName := en.displayName, celMatch := en.celMatch,
                           destination := en.destination)
            case "labels" => v.(labels := en.labels)
            case "annotations" => v.(annotations := en.annotations)
            case "display_name" => v.(displayName := en.displayName)
            case "cel_match" => v.(celMatch := en.celMatch)
            case "destination" => v.(destination := en.destination)
            case _ => v
  {
    assert |"labels"| == 6 && |"annotations"| == 11 && |"display_name"| == 12 && |"cel_match"| == 9;
    assert |"destination"| == 11 && |"*"| == 1 && "annotations"[0] != "destination"[0];
    SinglePath(path);
  }

  /** What an update without a mask writes: all five. */
  lemma MergedByNil<L, D>(v: Fields<L, D>, en: Fields<L, D>)
    ensures Merged(v, en, None) == v.(labels := en.labels, annotations := en.annotations, displayName := en.displayName,
                                      celMatch := en.celMatch, destination := en.destination)
  {
  }

  /** The assignments made for "*" and for a nil mask: sub-messages by reference. */
  method CopyMutable(stored: EnrollmentMessage, en: EnrollmentMessage)
    modifies stored
    ensures stored.Refs() == Merged(old(stored.Refs()), old(en.Refs()), None)
  {
    stored.labels := en.labels;
    stored.annotations := en.annotations;
    stored.displayName := en.displayName;
    stored.celMatch := en.celMatch;
    stored.destination := en.destination;
  }

  /** One case of the mask switch, for any path but message_bus: "*" writes the five mutable fields. */
  method ApplyPath(stored: EnrollmentMessage, en: EnrollmentMessage, path: string)
    modifies stored
    ensures stored.Refs() == Merged(old(stored.Refs()), old(en.Refs()), Some([path]))
  {
    MergedByPath(stored.Refs(), en.Refs(), path);
    match path {
      case "*" => CopyMutable(stored, en);
      case "labels" => stored.labels := en.labels;
      case "annotations" => stored.annotations := en.annotations;
      case "display_name" => stored.displayName := en.displayName;
      case "cel_match" => stored.celMatch := en.celMatch;
      case "destination" => stored.destination := en.destination;
      case _ =>
    }
  }

  /** Merging one more path into what the earlier ones made. */
  lemma MergedNext<L, D>(stored: Fields<L, D>, req: Fields<L, D>, paths: seq<string>, i: nat)
    requires i < |paths|
    ensures Merged(Merged(stored, req, Some(paths[..i])), req, Some([paths[i]])) == Merged(stored, req, Some(paths[..i + 1]))
  {
    forall f ensures Masks(Some(paths[..i + 1]), f) <==> Masks(Some(paths[..i]), f) || Masks(Some([paths[i]]), f) {
      MasksGrow(paths, i, f);
    }
  }

  /** The mask loop: it stops, with what it has written so far in place, at message_bus. */
  method ApplyMask(stored: EnrollmentMessage, en: EnrollmentMessage, updateMask: FieldMask) returns (ok: bool)
    modifies stored
    ensures ok <==> !Rejected(updateMask)
    ensures stored.Refs() == Merged(old(stored.Refs()), old(en.Refs()),
                                    if ok then updateMask else Some(updateMask.value[..Applied(updateMask.value)]))
  {
    if updateMask.Some? {
      var paths := updateMask.value;
      for i := 0 to |paths|
        invariant forall j :: 0 <= j < i ==> paths[j] != "message_bus"
        invariant stored.Refs() == Merged(old(stored.Refs()), old(en.Refs()), Some(paths[..i]))
        invariant en.Refs() == old(en.Refs())
      {
        if paths[i] == "message_bus" {
          StopsAtFirst(paths, i);
          return false;
        }
        ApplyPath(stored, en, paths[i]);
        MergedNext(old(stored.Refs()), old(en.Refs()), paths, i);
      }
      assert paths[..|paths|] == paths;
    } else {
      CopyMutable(stored, en);
    }
    return true;
  }

  /**
   UpdateEnrollment once the stored message is found. The two messages then share exactly the sub-messages of the fields
   that were written.
   */
  method UpdateInPlace(stored: EnrollmentMessage, en: EnrollmentMessage, updateMask: FieldMask, stamp: Stamp)
    returns (ok: bool)
    modifies stored
    ensures ok <==> !Rejected(updateMask)
    ensures stored.Refs() == Updated(old(stored.Refs()), old(en.Refs()), updateMask, stamp)
    ensures stored.Value() == Updated(old(stored.Value()), old(en.Value()), updateMask, stamp)
  {
    ok := ApplyMask(stored, en, updateMask);
    if ok {
      stored.updateTime := stamp.now;
      stored.etag := stamp.etag;
    }
  }

  /** CreateEnrollment once the name is known to be free: the message to store. */
  method CloneAsCreated(en: EnrollmentMessage, parent: string, enrollmentId: string, stamp: Stamp)
    returns (stored: EnrollmentMessage)
    ensures DeeplyFresh(stored)
    ensures stored.Value() == Created(parent, enrollmentId, en.Value(), stamp)
  {
    stored := new EnrollmentMessage.Clone(en);
    ghost var refs := stored.Refs();
    stored.name := Format(parent, "enrollments", enrollmentId);
    stored.uid := stamp.uid;
    stored.etag := stamp.etag;
    stored.createTime := stamp.now;
    stored.updateTime := stamp.now;
    assert stored.Refs() == Created(parent, enrollmentId, refs, stamp);
  }

  ghost function Members(c: Enrollments, bus: string): set<string> {
    set n | n in c && c[n].messageBus == bus
  }

  ghost predicate ListsMembers(names: seq<string>, c: Enrollments, bus: string) {
    Ascending(names) && forall n :: n in names <==> n in Members(c, bus)
  }

  /** Every enrollment is listed for its own bus, and for no other. */
  lemma MembersPartition(c: Enrollments, name: string, bus: string)
    ensures name in Members(c, bus) <==> name in c && bus == c[name].messageBus
  {
  }

  predicate Distinct(names: seq<string>) {
    forall i, j :: 0 <= i < j < |names| ==> names[i] != names[j]
  }

  lemma InsertKeepsAscending(sorted: seq<string>, at: nat, name: string)
    requires Ascending(sorted) && name !in sorted && at <= |sorted|
    requires at > 0 ==> !Less(name, sorted[at - 1])
    requires at < |sorted| ==> Less(name, sorted[at])
    ensures Ascending(InsertAt(sorted, at, name))
  {
    forall i | 0 <= i < at ensures Less(sorted[i], name) {
      LessIsTotal(name, sorted[at - 1]);
      if i < at - 1 {
        LessIsTransitive(sorted[i], sorted[at - 1], name);
      }
    }
    forall j | at <= j < |sorted| ensures Less(name, sorted[j]) {
      if at < j {
        LessIsTransitive(name, sorted[at], sorted[j]);
      }
    }
  }

  /** sort.Strings, on names that are all different. */
  method SortStrings(names: seq<string>) returns (sorted: seq<string>)
    requires Distinct(names)
    ensures Ascending(sorted) && |sorted| == |names| && forall n :: n in sorted <==> n in names
  {
    sorted := [];
    for k := 0 to |names|
      invariant Ascending(sorted) && |sorted| == k
      invariant forall n :: n in sorted <==> n in names[..k]
    {
      var at := 0;
      while at < k && !Less(names[k], sorted[at])
        invariant 0 <= at <= k
        invariant at > 0 ==> !Less(names[k], sorted[at - 1])
      {
        at := at + 1;
      }
      assert names[..k + 1] == names[..k] + [names[k]];
      InsertKeepsAscending(sorted, at, names[k]);
      InsertedMembers(sorted, at, names[k]);
      sorted := InsertAt(sorted, at, names[k]);
    }
    assert names[..|names|] == names;
  }

  class EnrollmentStore {
    var enrollments: map<string, EnrollmentMessage>

    ghost predicate Valid()
      reads this, enrollments.Values
    {
      forall n :: n in enrollments ==> enrollments[n].name == n
    }

    ghost function Contents(): Enrollments
      reads this, enrollments.Values
      reads set n | n in enrollments :: enrollments[n].labels
      reads set n | n in enrollments :: enrollments[n].annotations
      reads set n | n in enrollments :: enrollments[n].destination
    {
      map n | n in enrollments :: enrollments[n].Value()
    }

    /** A returned message: deeply fresh, and sharing no memory with any stored enrollment. */
    twostate predicate Private(new m: EnrollmentMessage)
      reads this, enrollments.Values, m
    {
      DeeplyFresh(m) && forall n :: n in enrollments ==> m.Disjoint(enrollments[n])
    }

    twostate lemma OthersKeepTheirContents(name: string)
      requires name in enrollments
      requires enrollments == old(enrollments)[name := enrollments[name]]
      requires forall n :: n in old(enrollments) && n != name ==> enrollments[n].Value() == old(enrollments[n].Value())
      ensures Contents() == old(Contents())[name := enrollments[name].Value()]
    {
    }

    constructor ()
      ensures Valid() && Contents() == map[]
    {
      enrollments := map[];
    }

    /** cloneProto(s.enrollments[name]). */
    method CopyOf(name: string) returns (copy: EnrollmentMessage)
      requires name in enrollments
      ensures Private(copy) && copy.Value() == enrollments[name].Value() && Contents() == old(Contents())
    {
      copy := new EnrollmentMessage.Clone(enrollments[name]);
    }

    method CreateEnrollment(parent: string, enrollmentId: string, en: EnrollmentMessage, stamp: Stamp)
      returns (r: Result<EnrollmentMessage>)
      requires Valid()
      modifies this
      ensures Valid()
      ensures Contents() == AfterCreate(old(Contents()), parent, enrollmentId, old(en.Value()), stamp)
      ensures match r
              case Err(code) => code == AlreadyExists && Format(parent, "enrollments", enrollmentId) in old(enrollments)
              case Ok(m) => Private(m) && Format(parent, "enrollments", enrollmentId) !in old(enrollments)
                            && m.Value() == Created(parent, enrollmentId, old(en.Value()), stamp)
    {
      var name := Format(parent, "enrollments", enrollmentId);
      if name in enrollments {
        return Err(AlreadyExists);
      }
      var stored := CloneAsCreated(en, parent, enrollmentId, stamp);
      assert Contents() == old(Contents());
      var copy := Insert(name, stored);
      return Ok(copy);
    }

    /** Stores a new message under a free name, and returns a copy of it. */
    method Insert(name: string, stored: EnrollmentMessage) returns (copy: EnrollmentMessage)
      requires Valid() && name !in enrollments && stored.name == name
      modifies this
      ensures Valid() && Contents() == old(Contents())[name := old(stored.Value())]
      ensures Private(copy) && copy.Value() == old(stored.Value())
    {
      Put(name, stored);
      copy := CopyOf(name);
    }

    method Put(name: string, stored: EnrollmentMessage)
      requires Valid() && name !in enrollments && stored.name == name
      modifies this
      ensures Valid() && name in enrollments && enrollments[name] == stored && stored.Value() == old(stored.Value())
      ensures Contents() == old(Contents())[name := old(stored.Value())]
    {
      enrollments := enrollments[name := stored];
      OthersKeepTheirContents(name);
    }

    method UpdateEnrollment(en: EnrollmentMessage, updateMask: FieldMask, stamp: Stamp) returns (r: Result<EnrollmentMessage>)
      requires Valid()
      modifies if en.name in enrollments then {enrollments[en.name]} else {}
      ensures Valid() && enrollments == old(enrollments)
      ensures Contents() == AfterUpdate(old(Contents()), old(en.Value()), updateMask, stamp)
      ensures match r
              case Err(code) => code == (if en.name in enrollments then InvalidArgument else NotFound)
                                && (en.name in enrollments ==> Rejected(updateMask))
              case Ok(m) => Private(m) && en.name in enrollments && !Rejected(updateMask)
                            && m.Value() == Contents()[en.name]
      ensures en.name in enrollments ==>
                enrollments[en.name].Refs() == Updated(old(enrollments[en.name].Refs()), old(en.Refs()), updateMask, stamp)
    {
      if en.name !in enrollments {
        return Err(NotFound);
      }
      var stored := enrollments[en.name];
      var ok := UpdateInPlace(stored, en, updateMask, stamp);
      assert Contents() == old(Contents())[stored.name := stored.Value()] by {
        OthersKeepTheirContents(stored.name);
      }
      if !ok {
        return Err(InvalidArgument);
      }
      var copy := CopyOf(stored.name);
      return Ok(copy);
    }

    method DeleteEnrollment(name: string) returns (r: Result<()>)
      requires Valid()
      modifies this
      ensures Valid() && Contents() == old(Contents()) - {name}
      ensures r == if name in old(Contents()) then Ok(()) else Err(NotFound)
    {
      if name !in enrollments {
        return Err(NotFound);
      }
      enrollments := enrollments - {name};
      return Ok(());
    }

    /** ListMessageBusEnrollments: a page of the names of the bus's enrollments, in ascending order. */
    method ListMessageBusEnrollments(bus: string, pageSize: int, pageToken: string)
      returns (r: Result<Page<string>>)
      requires |enrollments| <= MAX_LEN
      ensures exists members :: ListsMembers(members, Contents(), bus) && r == PageOf(members, pageToken, pageSize)
    {
      var all := [];
      var rest := enrollments.Keys;
      while rest != {}
        invariant rest <= enrollments.Keys && |all| + |rest| <= |enrollments| && Distinct(all)
        invariant forall n :: n in all <==> n in enrollments && n !in rest && enrollments[n].messageBus == bus
      {
        var name :| name in rest;
        rest := rest - {name};
        if enrollments[name].messageBus == bus {
          all := all + [name];
        }
      }
      all := SortStrings(all);
      assert ListsMembers(all, Contents(), bus);
      r := PaginatePage(all, pageToken, pageSize);
    }
  }

  // ---- Whole runs --------------------------------------------------------------------------

  datatype Step =
    | Create(parent: string, id: string, req: Enrollment, stamp: Stamp)
    | Update(req: Enrollment, mask: FieldMask, stamp: Stamp)
    | Delete(name: string)

  function After(c: Enrollments, step: Step): Enrollments {
    match step
    case Create(parent, id, req, stamp) => AfterCreate(c, parent, id, req, stamp)
    case Update(req, mask, stamp) => AfterUpdate(c, req, mask, stamp)
    case Delete(name) => c - {name}
  }

  function Run(c: Enrollments, steps: seq<Step>): Enrollments {
    if steps == [] then c else After(Run(c, steps[..|steps| - 1]), steps[|steps| - 1])
  }

  ghost predicate KeyedByName(c: Enrollments) {
    forall n :: n in c ==> c[n].name == n
  }

  lemma {:induction false} AlwaysKeyedByName(c: Enrollments, steps: seq<Step>)
    requires KeyedByName(c)
    ensures KeyedByName(Run(c, steps))
  {
    if steps != [] {
      AlwaysKeyedByName(c, steps[..|steps| - 1]);
    }
  }

  predicate SameIdentity(before: Enrollment, after: Enrollment) {
    && after.name == before.name && after.uid == before.uid && after.createTime == before.createTime
    && after.messageBus == before.messageBus
  }

  lemma RunNext(c: Enrollments, steps: seq<Step>, k: nat)
    requires k < |steps|
    ensures Run(c, steps[..k + 1]) == After(Run(c, steps[..k]), steps[k])
  {
    assert steps[..k + 1][..k] == steps[..k];
  }

  ghost predicate LivesThrough(c: Enrollments, steps: seq<Step>, name: string, first: nat, last: nat)
    requires first <= last <= |steps|
  {
    forall k :: first <= k <= last ==> name in Run(c, steps[..k])
  }

  lemma StepKeepsIdentity(c: Enrollments, step: Step, name: string)
    requires KeyedByName(c) && name in c && name in After(c, step)
    ensures SameIdentity(c[name], After(c, step)[name])
  {
  }

  /**
   While an enrollment lives, its name, uid, creation time and message bus never change, whatever successful or
   rejected updates happen to it, and whatever happens to the others.
   */
  lemma {:induction false} IdentityIsStable(c: Enrollments, steps: seq<Step>, name: string, first: nat, last: nat)
    requires KeyedByName(c) && first <= last <= |steps|
    requires LivesThrough(c, steps, name, first, last)
    ensures SameIdentity(Run(c, steps[..first])[name], Run(c, steps[..last])[name])
    decreases last - first
  {
    if first < last {
      IdentityIsStable(c, steps, name, first, last - 1);
      AlwaysKeyedByName(c, steps[..last - 1]);
      RunNext(c, steps, last - 1);
      StepKeepsIdentity(Run(c, steps[..last - 1]), steps[last - 1], name);
    }
  }

  /** No sequence of updates, successful or rejected, moves an enrollment to another bus or out of its own. */
  lemma {:induction false} UpdatesKeepMembership(c: Enrollments, steps: seq<Step>, bus: string)
    requires forall k :: 0 <= k < |steps| ==> steps[k].Update?
    ensures Members(Run(c, steps), bus) == Members(c, bus)
  {
    if steps != [] {
      UpdatesKeepMembership(c, steps[..|steps| - 1], bus);
      var before := Run(c, steps[..|steps| - 1]);
      assert steps[|steps| - 1].Update?;
      assert forall n :: n in Run(c, steps) <==> n in before;
      assert forall n :: n in before ==> Run(c, steps)[n].messageBus == before[n].messageBus;
    }
  }

  lemma {:induction false} MembersStay(c: Enrollments, steps: seq<Step>, bus: string)
    requires forall k :: 0 <= k < |steps| ==> !steps[k].Delete?
    ensures Members(c, bus) <= Members(Run(c, steps), bus)
  {
    if steps != [] {
      MembersStay(c, steps[..|steps| - 1], bus);
      var before, last := Run(c, steps[..|steps| - 1]), steps[|steps| - 1];
      assert !last.Delete?;
      assert forall n :: n in before ==> n in After(before, last) && After(before, last)[n].messageBus == before[n].messageBus;
    }
  }

  /**
   A crawl over a bus's enrollments, with any page sizes and with any creates and successful or rejected updates in
   between, has returned every enrollment that was on the bus at the start by the time the token is empty.
   */
  lemma MemberCrawlIsComplete(stores: seq<Enrollments>, between: seq<seq<Step>>, bus: string, lists: seq<seq<string>>,
                              sizes: seq<int>, pages: seq<seq<string>>, tokens: seq<string>, name: string)
    requires |stores| == |between| == |lists| && IsCrawl(lists, sizes, pages, tokens) && Complete(tokens)
    requires forall k :: 0 <= k < |stores| ==> ListsMembers(lists[k], stores[k], bus)
    requires forall k :: 0 < k < |stores| ==> stores[k] == Run(stores[k - 1], between[k])
    requires forall k, j :: 0 < k < |between| && 0 <= j < |between[k]| ==> !between[k][j].Delete?
    requires name in Members(stores[0], bus)
    ensures exists k :: 0 <= k < |pages| && name in pages[k]
  {
    forall k | 0 < k < |lists| ensures Within(lists[k - 1], lists[k]) {
      assert ListsMembers(lists[k - 1], stores[k - 1], bus) && ListsMembers(lists[k], stores[k], bus);
      MembersStay(stores[k - 1], between[k], bus);
    }
    CreatesNeverSkip(lists, sizes, pages, tokens, name);
  }
}
