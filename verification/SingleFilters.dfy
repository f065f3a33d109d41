/** What becomes of one value in a filter chain, told by what its handlers return (hooks/bus.go, ApplyFilters). */
module SingleFilters {
  import opened Common
  import opened BatchFilters

  /** The handler takes v and makes w of it, without an error; a batch handler through a slice of one. */
  ghost predicate Makes<T>(h: Handler<T>, v: T, w: T) {
    match h
    case PerItem(run) => run(v) == Returned(w, None)
    case Batch(runAll, _) => runAll([v]) == Returned([w], None)
  }

  /** The values accepted one after the other, inactive handlers passing theirs on. */
  ghost predicate AcceptedValues<T>(chain: seq<Filter<T>>, vs: seq<T>) {
    && 1 <= |vs| <= |chain| + 1
    && forall j :: 0 <= j < |vs| - 1 ==> if chain[j].active then Makes(chain[j].handler, vs[j], vs[j + 1]) else vs[j] == vs[j + 1]
  }

  /** Handler k ends the chain on the value v. A short-circuit answers with its own value and no error, except that a
      batch handler's is dropped; any other error, a panic, and a batch handler that returns other than one
      item answer with v and that error. */
  ghost predicate EndsWith<T>(h: Handler<T>, k: nat, v: T, out: T, err: Option<Fault>) {
    match h
    case PerItem(run) =>
      (match run(v)
       case Panicked => out == v && err == Some(Panic(k))
       case Returned(w, None) => false
       case Returned(w, Some(ShortCircuit)) => out == w && err == None
       case Returned(w, Some(e)) => out == v && err == Some(e))
    case Batch(runAll, _) =>
      match runAll([v])
      case Panicked => out == v && err == Some(Panic(k))
      case Returned(ws, None) => |ws| != 1 && out == v && err == Some(Failure("wrong number of items for singleton input"))
      case Returned(ws, Some(ShortCircuit)) => out == v && err == None
      case Returned(ws, Some(e)) => out == v && err == Some(e)
  }

  lemma {:induction false} AcceptedPrefix<T>(chain: seq<Filter<T>>, vs: seq<T>)
    requires AcceptedValues(chain, vs)
    ensures ChainFrom(chain, 0, vs[0]) == ChainFrom(chain, |vs| - 1, vs[|vs| - 1])
    ensures Through(chain, |vs| - 1, vs[0]) == Some(vs[|vs| - 1])
  {
    if |vs| > 1 {
      var k := |vs| - 2;
      AcceptedPrefix(chain, vs[..k + 1]);
      assert if chain[k].active then Makes(chain[k].handler, vs[k], vs[k + 1]) else vs[k] == vs[k + 1];
    }
  }

  lemma {:induction false} OneMoreAccepted<T>(chain: seq<Filter<T>>, vs: seq<T>, w: T)
    requires AcceptedValues(chain, vs) && |vs| <= |chain|
    requires var k := |vs| - 1; if chain[k].active then Makes(chain[k].handler, vs[k], w) else vs[k] == w
    ensures AcceptedValues(chain, vs + [w])
  {
  }

  /** The handlers accept values as far as some handler that ends the chain, or to its end. */
  lemma {:induction false} AcceptedFrom<T>(chain: seq<Filter<T>>, vs: seq<T>) returns (all: seq<T>)
    requires AcceptedValues(chain, vs)
    ensures AcceptedValues(chain, all) && all[0] == vs[0]
    ensures var k, (out, err) := |all| - 1, ChainFrom(chain, 0, vs[0]);
            if k == |chain| then out == all[k] && err == None
            else chain[k].active && EndsWith(chain[k].handler, k, all[k], out, err)
    decreases |chain| - |vs|
  {
    var k, v := |vs| - 1, vs[|vs| - 1];
    AcceptedPrefix(chain, vs);
    if k == |chain| || (chain[k].active && Invoked(chain[k].handler, k, v).1.Some?) {
      all := vs;
    } else {
      var w := if chain[k].active then Invoked(chain[k].handler, k, v).0 else v;
      AcceptedIsMade(chain[k].handler, k, v);
      OneMoreAccepted(chain, vs, w);
      all := AcceptedFrom(chain, vs + [w]);
    }
  }

  lemma {:induction false} AcceptedIsMade<T>(h: Handler<T>, k: nat, v: T)
    ensures Invoked(h, k, v).1.None? ==> Makes(h, v, Invoked(h, k, v).0)
  {
    if h.Batch? && h.runAll([v]).Returned? && |h.runAll([v]).value| == 1 {
      assert h.runAll([v]).value == [h.runAll([v]).value[0]];
    }
  }

  /** ApplyFilters gives back the value untouched, with the rejection, if the schema rejects it. Otherwise each handler in turn
      accepts what the one before made, as far as the end of the chain, which answers with the last accepted value, or as
      far as the first handler that ends it. */
  lemma {:induction false} FilterOutcome<T>(schema: Schema<T>, chain: seq<Filter<T>>, v: T) returns (vs: seq<T>)
    ensures schema.Checked? && schema.reject(v).Some? ==>
              Single(schema, chain, v) == (v, Some(Failure(schema.reject(v).value)))
    ensures schema.Unchecked? || schema.reject(v).None? ==>
              && AcceptedValues(chain, vs) && vs[0] == v
              && var k, (out, err) := |vs| - 1, Single(schema, chain, v);
                 if k == |chain| then out == vs[k] && err == None
                 else chain[k].active && EndsWith(chain[k].handler, k, vs[k], out, err)
  {
    vs := AcceptedFrom(chain, [v]);
  }

  /** In particular the first handler to fail gives back the last accepted value with its fault, and the first to
      short-circuit its own value without one. */
  lemma {:induction false} FirstStopEndsOne<T>(chain: seq<Filter<T>>, v: T, k: nat)
    requires k < |chain| && Through(chain, k, v).Some? && Stage(chain[k], k, Through(chain, k, v).value).1.Some?
    ensures var last := Through(chain, k, v).value;
            var (made, fault) := Stage(chain[k], k, last);
            ChainFrom(chain, 0, v) == if fault == Some(ShortCircuit) then (made, None) else (last, fault)
  {
    SingleReaches(chain, k, v);
  }

  /** A batch is rejected whole for its first item that the schema rejects. */
  lemma {:induction false} BatchRejected<T>(schema: Schema<T>, chain: seq<Filter<T>>, items: seq<T>, i: nat)
    requires schema.Checked? && i < |items| && schema.reject(items[i]).Some?
    requires forall j :: 0 <= j < i ==> schema.reject(items[j]).None?
    ensures Whole(schema, chain, items) == (items, Some(Failure(schema.reject(items[i]).value)))
  {
    assert RejectedItem(schema, items, 0) == i;
  }
}
