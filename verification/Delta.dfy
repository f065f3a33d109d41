/** Documents, patches, and the one law the revision store needs of them. */
module Delta {
  import opened Common

  datatype Json =
    | Null
    | Bool(b: bool)
    | Num(n: int)
    | Str(s: string)
    | Arr(items: seq<Json>)
    | Obj(fields: map<string, Json>)

  /** The operations of RFC 6902 (section 4) used by the concrete codec below;
      a path is the list of reference tokens of a JSON pointer. */
  datatype Op =
    | Add(path: seq<string>, value: Json)
    | Remove(path: seq<string>)
    | Replace(path: seq<string>, value: Json)

  type Patch = seq<Op>

  /** The store's only view of the diff and patch libraries.  A codec may fail;
      `None` stands for ErrInvalidDelta. */
  datatype Codec = Codec(compute: (Json, Json) -> Option<Patch>, apply: (Json, Patch) -> Option<Json>)
  {
    /** A computed delta exists and takes the first document to the second. */
    ghost predicate RoundTrips() {
      forall a, b ::
        compute(a, b).Some? && apply(a, compute(a, b).value) == Some(b)
    }
  }

  // ---------- A concrete codec ----------

  function ApplyOp(doc: Json, op: Op): Option<Json>
    decreases |op.path|
  {
    if op.path == [] then
      (match op case Remove(_) => None case _ => Some(op.value))
    else if !doc.Obj? then None
    else
      var key := op.path[0];
      if |op.path| == 1 then
        match op
        case Add(_, v) => Some(Obj(doc.fields[key := v]))
        case Remove(_) => if key in doc.fields then Some(Obj(doc.fields - {key})) else None
        case Replace(_, v) => if key in doc.fields then Some(Obj(doc.fields[key := v])) else None
      else if key !in doc.fields then None
      else
        match ApplyOp(doc.fields[key], op.(path := op.path[1..]))
        case None => None
        case Some(child) => Some(Obj(doc.fields[key := child]))
  }

  function Apply(doc: Json, patch: Patch): Option<Json>
    decreases |patch|
  {
    if patch == [] then Some(doc)
    else
      match ApplyOp(doc, patch[0])
      case None => None
      case Some(next) => Apply(next, patch[1..])
  }

  /** Objects are compared member by member; anything else is replaced whole. */
  ghost function Diff(a: Json, b: Json): Patch
    decreases a, 1
  {
    if a == b then []
    else if a.Obj? && b.Obj? then DiffMembers(a, b, a.fields.Keys + b.fields.Keys)
    else [Replace([], b)]
  }

  ghost function DiffMembers(a: Json, b: Json, keys: set<string>): Patch
    requires a.Obj? && b.Obj? && keys <= a.fields.Keys + b.fields.Keys
    decreases a, 0, keys
  {
    if keys == {} then []
    else
      var k := Pick(keys);
      DiffMembers(a, b, keys - {k}) +
      if k !in b.fields then [Remove([k])]
      else if k !in a.fields then [Add([k], b.fields[k])]
      else Under(k, Diff(a.fields[k], b.fields[k]))
  }

  ghost function Pick(keys: set<string>): string
    requires keys != {}
    ensures Pick(keys) in keys
  {
    var k :| k in keys; k
  }

  /** The same patch, aimed at the member `key`. */
  function Under(key: string, patch: Patch): (r: Patch)
    ensures |r| == |patch|
  {
    seq(|patch|, i requires 0 <= i < |patch| => patch[i].(path := [key] + patch[i].path))
  }

  lemma {:induction false} ApplyAppend(doc: Json, p: Patch, q: Patch)
    ensures Apply(doc, p + q) ==
            if Apply(doc, p).None? then None else Apply(Apply(doc, p).value, q)
    decreases |p|
  {
    if p == [] {
      assert p + q == q;
    } else {
      assert (p + q)[1..] == p[1..] + q;
      match ApplyOp(doc, p[0])
      case None =>
      case Some(next) => ApplyAppend(next, p[1..], q);
    }
  }

  /** A patch aimed at a member acts on that member only, provided no step
      removes it (a whole-document replacement of the member is in range). */
  lemma {:induction false} ApplyUnder(doc: Json, key: string, patch: Patch)
    requires doc.Obj? && key in doc.fields && Apply(doc.fields[key], patch).Some?
    ensures Apply(doc, Under(key, patch)) == Some(Obj(doc.fields[key := Apply(doc.fields[key], patch).value]))
    decreases |patch|
  {
    var u := Under(key, patch);
    if patch == [] {
      assert doc.fields[key := doc.fields[key]] == doc.fields;
    } else {
      var op := patch[0];
      var child := ApplyOp(doc.fields[key], op).value;
      assert u[0].path[1..] == op.path;
      assert u[1..] == Under(key, patch[1..]);
      var next := Obj(doc.fields[key := child]);
      assert ApplyOp(doc, u[0]) == Some(next) by {
        if op.path == [] {
          assert u[0].path == [key];
        } else {
          assert u[0].(path := u[0].path[1..]) == op;
        }
      }
      ApplyUnder(next, key, patch[1..]);
      assert next.fields[key := Apply(child, patch[1..]).value] == doc.fields[key := Apply(child, patch[1..]).value];
    }
  }

  /** `a` with the members named in `keys` taken from `b` instead. */
  ghost function Merged(a: Json, b: Json, keys: set<string>): Json
    requires a.Obj? && b.Obj?
  {
    Obj(map k | k in a.fields.Keys + b.fields.Keys && (if k in keys then k in b.fields else k in a.fields)
          :: if k in keys then b.fields[k] else a.fields[k])
  }

  lemma {:induction false} DiffMembersMerges(a: Json, b: Json, keys: set<string>)
    requires a.Obj? && b.Obj? && keys <= a.fields.Keys + b.fields.Keys
    ensures Apply(a, DiffMembers(a, b, keys)) == Some(Merged(a, b, keys))
    decreases a, 0, keys
  {
    if keys == {} {
      assert Merged(a, b, {}).fields == a.fields;
    } else {
      var k := Pick(keys);
      var rest := keys - {k};
      var tail := if k !in b.fields then [Remove([k])]
                  else if k !in a.fields then [Add([k], b.fields[k])]
                  else Under(k, Diff(a.fields[k], b.fields[k]));
      DiffMembersMerges(a, b, rest);
      ApplyAppend(a, DiffMembers(a, b, rest), tail);
      var mid := Merged(a, b, rest);
      if k !in b.fields {
        assert mid.fields - {k} == Merged(a, b, keys).fields;
        assert tail[1..] == [];
      } else if k !in a.fields {
        assert mid.fields[k := b.fields[k]] == Merged(a, b, keys).fields;
        assert tail[1..] == [];
      } else {
        DiffApplies(a.fields[k], b.fields[k]);
        ApplyUnder(mid, k, Diff(a.fields[k], b.fields[k]));
        assert mid.fields[k := b.fields[k]] == Merged(a, b, keys).fields;
      }
    }
  }

  /** The computed patch takes `a` to `b`. */
  lemma {:induction false} DiffApplies(a: Json, b: Json)
    ensures Apply(a, Diff(a, b)) == Some(b)
    decreases a, 1
  {
    if a == b {
    } else if a.Obj? && b.Obj? {
      var keys := a.fields.Keys + b.fields.Keys;
      DiffMembersMerges(a, b, keys);
      assert Merged(a, b, keys).fields == b.fields;
    } else {
      assert [Replace([], b)][1..] == [];
    }
  }

  ghost function JsonPatchCodec(): Codec {
    Codec((a, b) => Some(Diff(a, b)), (a, p) => Apply(a, p))
  }

  /** The law the store asks of its libraries can be met: JSON Patch with add,
      remove and replace meets it. */
  lemma {:induction false} JsonPatchRoundTrips()
    ensures JsonPatchCodec().RoundTrips()
  {
    var c := JsonPatchCodec();
    forall a, b ensures c.compute(a, b).Some? && c.apply(a, c.compute(a, b).value) == Some(b) {
      DiffApplies(a, b);
    }
  }
}
