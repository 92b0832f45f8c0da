/** internal/lro/store.go: the store of operations, all of them done from the start, and handed out by reference. */
module LroStorage {
  import opened GoStrings
  import opened Names
  import opened Wrappers

  datatype Verb = VerbCreate | VerbUpdate | VerbDelete

  /** A resolved operation; response is the packed resource. */
  datatype Operation<R> = Operation(name: string, done: bool, verb: Verb, target: string, response: R)

  function OperationName(parent: string, uuid: string): string {
    parent + "/operations/" + uuid
  }

  /** hex.EncodeToString of at least one byte. */
  predicate IsHex(s: string) {
    s != "" && forall k :: 0 <= k < |s| ==> '0' <= s[k] <= '9' || 'a' <= s[k] <= 'f'
  }

  /** The key that a Get, Delete or List looks up for a requested name. */
  function Key(requested: string): string {
    TrimPrefix(requested, "operations/")
  }

  /** An Operation message in memory. */
  class OperationMessage<R> {
    var name: string
    var done: bool
    var verb: Verb
    var target: string
    var response: R

    function Value(): Operation<R>
      reads this
    {
      Operation(name, done, verb, target, response)
    }

    constructor (op: Operation<R>)
      ensures Value() == op
    {
      name, done, verb, target, response := op.name, op.done, op.verb, op.target, op.response;
    }
  }

  /** The messages stored under these keys, which are all different and are those that start with the prefix. */
  ghost predicate ListsUnder<R>(listed: seq<OperationMessage<R>>, keys: seq<string>, ops: map<string, OperationMessage<R>>, prefix: string) {
    && |keys| == |listed| && (forall i, j :: 0 <= i < j < |keys| ==> keys[i] != keys[j])
    && (forall k :: 0 <= k < |keys| ==> keys[k] in ops && listed[k] == ops[keys[k]])
    && forall n :: n in keys <==> n in ops && prefix <= n
  }

  class LroStore<R> {
    var ops: map<string, OperationMessage<R>>

    ghost function Contents(): map<string, Operation<R>>
      reads this, ops.Values
    {
      map n | n in ops :: ops[n].Value()
    }

    constructor ()
      ensures ops == map[]
    {
      ops := map[];
    }

    /**
     Records a done operation and returns the stored message itself. There is no id when the random source fails
     (since Go 1.24 it never does) or the resource cannot be packed; then nothing is recorded.
     */
    method CreateDone(parent: string, resource: R, verb: Verb, target: string, uuid: Option<string>)
      returns (r: Result<OperationMessage<R>>)
      modifies this
      ensures match uuid
              case None => r == Err(Unknown) && ops == old(ops)
              case Some(id) =>
                && r.Ok? && fresh(r.value) && ops == old(ops)[OperationName(parent, id) := r.value]
                && r.value.Value() == Operation(OperationName(parent, id), true, verb, target, resource)
                && Contents() == old(Contents())[OperationName(parent, id) := r.value.Value()]
    {
      if uuid.None? {
        return Err(Unknown);
      }
      var name := OperationName(parent, uuid.value);
      var op := new OperationMessage(Operation(name, true, verb, target, resource));
      ops := ops[name := op];
      return Ok(op);
    }

    /** The stored message itself. */
    method GetOperation(requested: string) returns (r: Result<OperationMessage<R>>)
      ensures r == if Key(requested) in ops then Ok(ops[Key(requested)]) else Err(NotFound)
    {
      var name := TrimPrefix(requested, "operations/");
      if name !in ops {
        return Err(NotFound);
      }
      return Ok(ops[name]);
    }

    method DeleteOperation(requested: string) returns (r: Result<()>)
      modifies this
      ensures ops == old(ops) - {Key(requested)}
      ensures r == if Key(requested) in old(ops) then Ok(()) else Err(NotFound)
    {
      var name := TrimPrefix(requested, "operations/");
      var ok := name in ops;
      if ok {
        ops := ops - {name};
      }
      return if ok then Ok(()) else Err(NotFound);
    }

    /** Every operation whose key starts with the requested one, each once, in any order: the stored messages themselves. */
    method ListOperations(requested: string) returns (listed: seq<OperationMessage<R>>)
      ensures exists keys :: ListsUnder(listed, keys, ops, Key(requested))
    {
      var prefix := TrimPrefix(requested, "operations/");
      listed := [];
      ghost var keys: seq<string> := [];
      var rest := ops.Keys;
      while rest != {}
        invariant rest <= ops.Keys && |keys| == |listed|
        invariant forall i, j :: 0 <= i < j < |keys| ==> keys[i] != keys[j]
        invariant forall k :: 0 <= k < |keys| ==> keys[k] in ops && listed[k] == ops[keys[k]]
        invariant forall n :: n in keys <==> n in ops && n !in rest && prefix <= n
      {
        var name :| name in rest;
        rest := rest - {name};
        if prefix == "" || prefix <= name {
          listed := listed + [ops[name]];
          keys := keys + [name];
        }
      }
      assert ListsUnder(listed, keys, ops, Key(requested));
    }
  }

  /** What a client writes into an operation that a Get returned shows in the store. */
  method MutatedOperationShows<R>(store: LroStore<R>, requested: string, later: R)
    requires Key(requested) in store.ops
    modifies store.ops[Key(requested)]
    ensures store.ops == old(store.ops) && store.Contents()[Key(requested)].response == later
  {
    var r := store.GetOperation(requested);
    r.value.response := later;
  }

  // ---- Which names a client can look up ----------------------------------------------------

  /** Looking an operation up by its own name finds its own key exactly when its parent is not under "operations". */
  lemma OwnNameIsOwnKeyIff(parent: string, uuid: string)
    ensures Key(OperationName(parent, uuid)) == OperationName(parent, uuid) <==> !("operations/" <= parent + "/")
  {
    var name, p := OperationName(parent, uuid), "operations/";
    assert name == (parent + "/") + "operations/" + uuid;
    // The prefix cannot reach past the slash after the parent, as "operations" has no slash.
    assert name[|parent|] == '/' && forall k :: 0 <= k < 10 ==> p[k] != '/';
    assert p <= name ==> |parent| >= 10;
    assert |parent| >= 10 ==> (parent + "/")[..11] == name[..11];
    assert p <= name <==> p <= parent + "/";
  }

  // ---- Which operations a listing covers ---------------------------------------------------

  /** The operation of that name was made under the parent. */
  predicate MadeUnder(name: string, parent: string, uuid: string) {
    IsHex(uuid) && name == OperationName(parent, uuid)
  }

  lemma ParentIsUnique(name: string, p: string, i: string, q: string, j: string)
    requires MadeUnder(name, p, i) && MadeUnder(name, q, j)
    ensures p == q && i == j
  {
    assert "/" + "operations" + "/" == "/operations/";
    assert Format(p, "operations", i) == name == Format(q, "operations", j);
    FormatIsInjective(p, i, q, j, "operations");
  }

  /** The key is a beginning of q + "/operations/", or goes on into the very id. */
  predicate Reaches(key: string, q: string, uuid: string) {
    || key <= q + "/operations/"
    || (q + "/operations/" <= key && key[|q| + 12..] <= uuid)
  }

  lemma CoversIff(key: string, q: string, uuid: string)
    ensures key <= OperationName(q, uuid) <==> Reaches(key, q, uuid)
  {
    var stem, name := q + "/operations/", OperationName(q, uuid);
    assert name == stem + uuid;
    if |key| <= |stem| {
      assert key <= name <==> key <= stem;
      assert stem <= key ==> key == stem && key[|stem|..] == [];
    } else {
      var tail := key[|stem|..];
      assert key == key[..|stem|] + tail;
      assert key <= name ==> key[..|stem|] == name[..|stem|] == stem && tail == name[|stem|..|key|] == uuid[..|tail|];
      assert key[..|stem|] == stem && tail <= uuid ==> key == stem + tail;
    }
  }

  ghost predicate ListsOwn(names: set<string>, key: string) {
    forall n :: n in names ==> (key <= n <==> exists uuid :: MadeUnder(n, key, uuid))
  }

  /**
   In any store that CreateDone has filled, listing a parent gives exactly the operations made under it, if and only if
   no stored operation of another parent q is reached: the listed key is neither a beginning of q + "/operations/" nor
   one that goes on into the id.
   */
  lemma ListsOwnIff(names: set<string>, key: string)
    requires forall n :: n in names ==> exists q, uuid :: MadeUnder(n, q, uuid)
    ensures ListsOwn(names, key)
            <==> (forall n, q, uuid :: n in names && MadeUnder(n, q, uuid) && q != key ==> !Reaches(key, q, uuid))
  {
    forall n, q, uuid | n in names && MadeUnder(n, q, uuid)
      ensures (exists id :: MadeUnder(n, key, id)) <==> q == key
      ensures key <= n <==> Reaches(key, q, uuid)
      ensures q == key ==> Reaches(key, q, uuid)
    {
      CoversIff(key, q, uuid);
      if id :| MadeUnder(n, key, id) {
        ParentIsUnique(n, key, id, q, uuid);
      }
    }
  }

  lemma StemOccurs(key: string, q: string)
    ensures q + "/operations/" <= key ==> OccursAt(key, "/operations/", |q|)
  {
    var stem := q + "/operations/";
    if stem <= key {
      assert key[|q|..|q| + 12] == key[..|stem|][|q|..] == stem[|q|..] == "/operations/";
    }
  }

  /** A parent that has no "/operations/" in it reaches another one's operation only as a beginning of its stem. */
  lemma PlainParentReaches(key: string, q: string, uuid: string)
    requires forall j :: !OccursAt(key, "/operations/", j)
    ensures Reaches(key, q, uuid) <==> key <= q + "/operations/"
  {
    StemOccurs(key, q);
  }

  /** Listing by parent is a plain prefix match: a sibling location's operations are listed too. */
  lemma ListingCoversSiblings(uuid: string)
    ensures Key("projects/p/locations/us") <= OperationName("projects/p/locations/us-east1", uuid)
    ensures OperationName("projects/p/locations/us-east1", uuid) != OperationName("projects/p/locations/us", uuid)
  {
    assert "operations/"[0] != "projects/p/locations/us"[0];
    var sibling := OperationName("projects/p/locations/us-east1", uuid);
    assert sibling == "projects/p/locations/us" + ("-east1" + "/operations/" + uuid);
    assert sibling[23] == '-' && OperationName("projects/p/locations/us", uuid)[23] == '/';
  }
}
