/** Resource names: how they are formatted, and the last-index parsers that take them apart again. */
module Names {
  import opened GoStrings

  // ---- Formatting and parsing --------------------------------------------------------------

  /** fmt.Sprintf("%s/<collection>/%s", parent, id). */
  function Format(parent: string, collection: string, id: string): string {
    parent + "/" + collection + "/" + id
  }

  /** The text before the last occurrence of the marker, or the whole name when it does not occur. */
  function ParentBefore(name: string, marker: string): string {
    var i := LastIndex(name, marker);
    if i < 0 then name else name[..i]
  }

  function ParentFromName(name: string): string {
    ParentBefore(name, "/triggers/")
  }

  function ParentFromChannel(channel: string): string {
    ParentBefore(channel, "/channels/")
  }

  function ParentFromChannelConnection(connection: string): string {
    ParentBefore(connection, "/channelConnections/")
  }

  /** parentFromResource: drops the last two segments, whatever they are. */
  function ParentFromResource(name: string): string {
    ParentBefore(ParentBefore(name, "/"), "/")
  }

  function LastSegment(name: string): string {
    name[LastIndex(name, "/") + 1..]
  }

  // ---- Round trips -------------------------------------------------------------------------

  /** In a formatted name the collection's marker occurs last right after the parent, as the id has no slash. */
  lemma MarkerIsLast(parent: string, collection: string, id: string)
    requires '/' !in collection && '/' !in id
    ensures LastIndex(Format(parent, collection, id), "/" + collection + "/") == |parent|
    ensures LastIndex(Format(parent, collection, id), "/") == |parent| + 1 + |collection|
  {
    var name := Format(parent, collection, id);
    var marker := "/" + collection + "/";
    var slash := |parent| + 1 + |collection|;
    assert name == parent + marker + id;
    assert forall j :: slash < j < |name| ==> name[j] == id[j - slash - 1];
    assert name[slash] == marker[1 + |collection|] == '/';
    NoneAfter(name, "/", slash, 0);
    assert name[slash..slash + 1] == "/";
    LastIndexIs(name, "/", slash);
    NoneAfter(name, marker, |parent|, 1 + |collection|);
    LastIndexIs(name, marker, |parent|);
  }

  /** For any parent and slash-free id, every parser undoes the formatting. */
  lemma ParsersUndoFormat(parent: string, collection: string, id: string)
    requires '/' !in collection && '/' !in id
    ensures ParentBefore(Format(parent, collection, id), "/" + collection + "/") == parent
    ensures ParentFromResource(Format(parent, collection, id)) == parent
    ensures LastSegment(Format(parent, collection, id)) == id
  {
    MarkerIsLast(parent, collection, id);
    var name := Format(parent, collection, id);
    var shorter := ParentBefore(name, "/");
    assert shorter == parent + "/" + collection;
    assert forall j :: |parent| < j < |shorter| ==> shorter[j] == collection[j - |parent| - 1];
    NoneAfter(shorter, "/", |parent|, 0);
    LastIndexIs(shorter, "/", |parent|);
  }

  lemma FormatSplitsAtMarker(parent: string, collection: string, id: string, marker: string)
    requires '/' !in collection && '/' !in id && marker == "/" + collection + "/"
    ensures Format(parent, collection, id) == parent + marker + id && LastSegment(Format(parent, collection, id)) == id
    ensures parent + marker <= Format(parent, collection, id)
    ensures LastIndex(Format(parent, collection, id), marker) == |parent|
  {
    MarkerIsLast(parent, collection, id);
    ParsersUndoFormat(parent, collection, id);
    assert Format(parent, collection, id) == (parent + marker) + id;
  }

  lemma ParentBeforeMarker(parent: string, collection: string, id: string, marker: string)
    requires '/' !in collection && '/' !in id && marker == "/" + collection + "/"
    ensures ParentBefore(Format(parent, collection, id), marker) == parent
  {
    ParsersUndoFormat(parent, collection, id);
  }

  /** The parsed parent of any name goes up to the last marker; a name without one is its own parent. */
  lemma ParentBeforeIff(name: string, marker: string, parent: string)
    ensures ParentBefore(name, marker) == parent
            <==> if forall j :: !OccursAt(name, marker, j) then parent == name
                 else parent <= name && OccursAt(name, marker, |parent|) && forall j :: OccursAt(name, marker, j) ==> j <= |parent|
  {
  }

  lemma LastAfterSlash(head: string, last: string)
    requires '/' !in last
    ensures LastSegment(head + "/" + last) == last
  {
    var name := head + "/" + last;
    assert forall j :: |head| < j < |name| ==> name[j] == last[j - |head| - 1];
    NoneAfter(name, "/", |head|, 0);
    assert name[|head|..|head| + 1] == "/";
    LastIndexIs(name, "/", |head|);
  }

  lemma LastIsSuffix(name: string)
    ensures var last := LastSegment(name);
            name == last || (|last| < |name| && name == name[..|name| - |last| - 1] + "/" + last)
  {
    var i := LastIndex(name, "/");
    if i >= 0 {
      assert name == name[..i] + name[i..i + 1] + name[i + 1..];
    }
  }

  /** The last segment of any name is slash-free, and the whole name or what follows a slash. */
  lemma LastSegmentIff(name: string, last: string)
    ensures LastSegment(name) == last
            <==> '/' !in last && (name == last || (|last| < |name| && name == name[..|name| - |last| - 1] + "/" + last))
  {
    SlashFreeLastSegment(name);
    LastIsSuffix(name);
    if '/' !in last && |last| < |name| && name == name[..|name| - |last| - 1] + "/" + last {
      LastAfterSlash(name[..|name| - |last| - 1], last);
    }
    if '/' !in last && name == last {
      NoneAfter(name, "/", -1, 0);
    }
  }

  /** Distinct (parent, id) pairs never share a key. */
  lemma FormatIsInjective(p: string, i: string, q: string, j: string, collection: string)
    requires '/' !in collection && '/' !in i && '/' !in j
    requires Format(p, collection, i) == Format(q, collection, j)
    ensures p == q && i == j
  {
    ParsersUndoFormat(p, collection, i);
    ParsersUndoFormat(q, collection, j);
  }

  // ---- Names an upsert can recreate --------------------------------------------------------

  /** The segment before the last slash is the collection: a test on the text of the name alone. */
  predicate WellFormed(name: string, collection: string) {
    OccursAt(name, "/" + collection + "/", LastIndex(name, "/") - |collection| - 1)
  }

  lemma WellFormedIsFormatted(name: string, collection: string) returns (parent: string, id: string)
    requires WellFormed(name, collection)
    ensures '/' !in id && name == Format(parent, collection, id)
  {
    var i := LastIndex(name, "/") - |collection| - 1;
    parent, id := name[..i], LastSegment(name);
    SlashFreeLastSegment(name);
    assert name == parent + name[i..i + |collection| + 2] + id;
  }

  lemma FormattedIsWellFormed(parent: string, collection: string, id: string)
    requires '/' !in collection && '/' !in id
    ensures WellFormed(Format(parent, collection, id), collection)
  {
    MarkerIsLast(parent, collection, id);
    assert Format(parent, collection, id) == parent + ("/" + collection + "/") + id;
  }

  lemma WellFormedMeansFormatted(name: string, collection: string)
    requires '/' !in collection
    ensures WellFormed(name, collection)
            <==> exists parent, id :: '/' !in id && name == Format(parent, collection, id)
  {
    if WellFormed(name, collection) {
      var parent, id := WellFormedIsFormatted(name, collection);
    }
    if parent, id :| '/' !in id && name == Format(parent, collection, id) {
      FormattedIsWellFormed(parent, collection, id);
    }
  }

  /** An allow_missing update of a missing trigger creates the requested key exactly when the name is well formed. */
  lemma TriggerUpsertKey(name: string)
    ensures Format(ParentFromName(name), "triggers", LastSegment(name)) == name <==> WellFormed(name, "triggers")
  {
    WellFormedMeansFormatted(name, "triggers");
    if parent, id :| '/' !in id && name == Format(parent, "triggers", id) {
      ParsersUndoFormat(parent, "triggers", id);
      assert "/" + "triggers" + "/" == "/triggers/";
    }
    SlashFreeLastSegment(name);
  }

  /** The same for the resources whose parent is found by dropping two segments (buses, enrollments, pipelines). */
  lemma ResourceUpsertKey(name: string, collection: string)
    requires '/' !in collection
    ensures Format(ParentFromResource(name), collection, LastSegment(name)) == name <==> WellFormed(name, collection)
  {
    WellFormedMeansFormatted(name, collection);
    if parent, id :| '/' !in id && name == Format(parent, collection, id) {
      ParsersUndoFormat(parent, collection, id);
    }
    SlashFreeLastSegment(name);
  }

  lemma SlashFreeLastSegment(name: string)
    ensures '/' !in LastSegment(name)
  {
    LastOfSplit(name);
  }

  /**
   A malformed name is upserted under another key, so the resource lands where its own update does not look: any name
   without a slash, "foo" for one, under "foo/triggers/foo".
   */
  lemma MalformedUpsertLandsElsewhere(name: string)
    requires '/' !in name
    ensures Format(ParentFromName(name), "triggers", LastSegment(name)) == name + "/triggers/" + name != name
    ensures !WellFormed(name, "triggers")
  {
    NoneAfter(name, "/", -1, 0);
    NoneAfter(name, "/triggers/", -1, 0);
    assert "/" + "triggers" + "/" == "/triggers/";
    assert |name + "/triggers/" + name| > |name|;
  }

  // ---- Resource ids ------------------------------------------------------------------------

  predicate Lower(c: char) { 'a' <= c <= 'z' }
  predicate LowerOrDigit(c: char) { Lower(c) || '0' <= c <= '9' }

  /** The regular expression ^[a-z]([a-z0-9\-]{0,61}[a-z0-9])?$, group by group. */
  ghost predicate MatchesResourceIdRe(id: string) {
    exists first, group :: Groups(id, first, group)
  }

  ghost predicate Groups(id: string, first: char, group: string) {
    id == [first] + group && Lower(first) && (group == "" || MatchesGroup(group))
  }

  ghost predicate MatchesGroup(group: string) {
    exists middle: string, last: char ::
      && group == middle + [last]
      && |middle| <= 61 && (forall c :: c in middle ==> LowerOrDigit(c) || c == '-')
      && LowerOrDigit(last)
  }

  /** validateResourceID, decided character by character. */
  predicate ValidResourceId(id: string) {
    && 1 <= |id| <= 63
    && Lower(id[0]) && LowerOrDigit(id[|id| - 1])
    && IdChars(id)
  }

  predicate IdChars(s: string) {
    forall k :: 0 <= k < |s| ==> LowerOrDigit(s[k]) || s[k] == '-'
  }

  lemma GroupDecided(group: string)
    ensures MatchesGroup(group) <==> 1 <= |group| <= 62 && LowerOrDigit(group[|group| - 1]) && IdChars(group)
  {
    if 1 <= |group| <= 62 && LowerOrDigit(group[|group| - 1]) && IdChars(group) {
      assert group == group[..|group| - 1] + [group[|group| - 1]];
    }
  }

  lemma ReDecided(id: string)
    ensures MatchesResourceIdRe(id) <==> id != "" && Groups(id, id[0], id[1..])
  {
    if first, group :| Groups(id, first, group) {
      assert id[0] == first && id[1..] == group;
    }
  }

  lemma IdCharsSplit(id: string)
    requires id != ""
    ensures IdChars(id) <==> (LowerOrDigit(id[0]) || id[0] == '-') && IdChars(id[1..])
  {
    assert forall k :: 1 <= k < |id| ==> id[k] == id[1..][k - 1];
  }

  lemma RecognizerDecidesTheRe(id: string)
    ensures ValidResourceId(id) <==> MatchesResourceIdRe(id)
    ensures ValidResourceId(id) ==> '/' !in id && id != ""
  {
    ReDecided(id);
    if id != "" {
      assert id == [id[0]] + id[1..];
      GroupDecided(id[1..]);
      IdCharsSplit(id);
    }
  }
}
