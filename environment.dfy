/**
  The compiler's symbol table: a chain of lexical environments.

  Each environment owns a map from names to compiled values and an optional
  link to the environment that encloses it; the global environment has no
  parent. Values are opaque to the symbol table, so they are a type
  parameter `V`.
 */
module Environments {

  /** Outcome of a lookup: the bound value, or the fatal "not defined" error
      that names the variable. */
  datatype Result<V> = Ok(value: V) | Undefined(name: string)

  /** `i` is the innermost position of `chain` (innermost first) that binds `name`. */
  ghost predicate InnermostAt<V>(chain: seq<map<string, V>>, name: string, i: nat)
  {
    && i < |chain|
    && name in chain[i]
    && forall j :: 0 <= j < i ==> name !in chain[j]
  }

  /** Nothing in `chain` binds `name`. */
  ghost predicate Unbound<V>(chain: seq<map<string, V>>, name: string)
  {
    forall i :: 0 <= i < |chain| ==> name !in chain[i]
  }

  /** A chain that binds `name` somewhere has an innermost binding of it. */
  lemma {:induction false} InnermostExists<V>(chain: seq<map<string, V>>, name: string, k: nat) returns (i: nat)
    requires k < |chain| && name in chain[k]
    ensures InnermostAt(chain, name, i) && i <= k
    decreases k
  {
    if j :| 0 <= j < k && name in chain[j] {
      i := InnermostExists(chain, name, j);
    } else {
      i := k;
    }
  }

  class Environment<V> {
    /** The bindings of this environment; the only state that ever changes. */
    var record: map<string, V>
    /** The enclosing environment, fixed when this one is created. */
    const parent: Environment?<V>
    /** Every environment strictly above this one in the chain. */
    ghost const Ancestors: set<Environment<V>>

    /** The parent links form a finite chain that ends at the root. The
        predicate depends on constant fields only, so no update of any
        environment's bindings can invalidate it. */
    ghost predicate Valid()
      decreases Ancestors
    {
      && this !in Ancestors
      && (parent == null ==> Ancestors == {})
      && (parent != null ==>
            && parent !in parent.Ancestors
            && Ancestors == {parent} + parent.Ancestors
            && parent.Valid())
    }

    /** The bindings of the whole chain, this environment first, the root last. */
    ghost function Chain(): (c: seq<map<string, V>>)
      requires Valid()
      reads this, Ancestors
      ensures |c| > 0 && c[0] == record
      ensures |c| == 1 <==> parent == null
      decreases Ancestors
    {
      if parent == null then [record] else [record] + parent.Chain()
    }

    /** A new environment with the given initial bindings below `parent`
        (none for the global environment). */
    constructor (record: map<string, V>, parent: Environment?<V>)
      requires parent != null ==> parent.Valid()
      ensures Valid()
      ensures this.record == record && this.parent == parent
      ensures Chain() == [record] + (if parent == null then [] else parent.Chain())
    {
      this.record := record;
      this.parent := parent;
      this.Ancestors := if parent == null then {} else {parent} + parent.Ancestors;
    }

    /** Binds `name` to `value` in this environment, replacing any binding
        it had here, and hands `value` back. */
    method Define(name: string, value: V) returns (r: V)
      requires Valid()
      modifies this
      ensures r == value
      ensures record == old(record)[name := value]
      ensures Chain() == [record] + old(Chain())[1..]
      ensures Lookup(name) == Ok(value)
      ensures forall k :: k != name ==> Lookup(k) == old(Lookup(k))
      ensures parent != null ==> forall k :: parent.Lookup(k) == old(parent.Lookup(k))
    {
      record := record[name := value];
      r := value;
    }

    /** The environment holding the nearest binding of `name`, walking from
        this one towards the root; null when no environment binds it (the
        point where the compiler reports the name and exits). */
    function Resolve(name: string): (r: Environment?<V>)
      requires Valid()
      reads this, Ancestors
      ensures r != null ==> (r == this || r in Ancestors) && name in r.record
      ensures name in record ==> r == this
      ensures r == null ==> name !in record && forall a :: a in Ancestors ==> name !in a.record
      decreases Ancestors
    {
      if name in record then this
      else if parent == null then null
      else parent.Resolve(name)
    }

    /** The value of the nearest binding of `name`, or the fatal error. */
    function Lookup(name: string): (r: Result<V>)
      requires Valid()
      reads this, Ancestors
      ensures r.Undefined? ==> r.name == name
      ensures name in record ==> r == Ok(record[name])
    {
      var owner := Resolve(name);
      if owner == null then Undefined(name) else Ok(owner.record[name])
    }

    /** An environment that does not bind `name` answers as its parent does,
        and the root that does not bind it fails. */
    lemma LookupDelegates(name: string)
      requires Valid() && name !in record
      ensures parent == null ==> Lookup(name) == Undefined(name)
      ensures parent != null ==> Lookup(name) == parent.Lookup(name)
    {
    }

    /** Inner bindings shadow outer ones: the innermost environment of the
        chain that binds `name` supplies the value. */
    lemma {:induction false} LookupInnermost(name: string, i: nat)
      requires Valid() && InnermostAt(Chain(), name, i)
      ensures Lookup(name) == Ok(Chain()[i][name])
      decreases Ancestors
    {
      if i > 0 {
        assert name !in Chain()[0];
        assert Chain()[1..] == parent.Chain();
        assert InnermostAt(parent.Chain(), name, i - 1) by {
          forall j | 0 <= j < i - 1 ensures name !in parent.Chain()[j] {
            assert parent.Chain()[j] == Chain()[j + 1];
          }
        }
        parent.LookupInnermost(name, i - 1);
        LookupDelegates(name);
      }
    }

    /** Lookup fails exactly when no environment of the chain binds `name`. */
    lemma {:induction false} LookupUndefinedIff(name: string)
      requires Valid()
      ensures Lookup(name).Undefined? <==> Unbound(Chain(), name)
      decreases Ancestors
    {
      if name !in record {
        LookupDelegates(name);
        if parent != null {
          parent.LookupUndefinedIff(name);
          assert Chain() == [record] + parent.Chain();
          assert Unbound(Chain(), name) <==> Unbound(parent.Chain(), name) by {
            forall i | 0 <= i < |parent.Chain()| ensures Chain()[i + 1] == parent.Chain()[i] { }
          }
        }
      }
    }

    /** Every successful lookup comes from the innermost binding of the chain. */
    lemma {:induction false} LookupFound(name: string)
      requires Valid() && Lookup(name).Ok?
      ensures exists i: nat :: InnermostAt(Chain(), name, i) && Lookup(name).value == Chain()[i][name]
    {
      LookupUndefinedIff(name);
      var k :| 0 <= k < |Chain()| && name in Chain()[k];
      var i := InnermostExists(Chain(), name, k);
      LookupInnermost(name, i);
    }
  }

  /** Two definitions of one name in one environment: the later value wins. */
  method DefineTwice<V>(env: Environment<V>, name: string, first: V, second: V)
    requires env.Valid()
    modifies env
    ensures env.record == old(env.record)[name := second]
    ensures env.Lookup(name) == Ok(second)
  {
    var _ := env.Define(name, first);
    var _ := env.Define(name, second);
  }

  /** A block below the global environment: the block sees the global
      bindings, including ones added after it was opened; its own
      bindings shadow the global ones and stay invisible outside it. */
  method NestedScopes<V>(outer: V, inner: V) returns (global: Environment<V>, block: Environment<V>)
    ensures global.Valid() && block.Valid() && block.parent == global
    ensures global.Lookup("x") == Ok(outer) && block.Lookup("x") == Ok(inner)
    ensures global.Lookup("y") == Undefined("y") && block.Lookup("y") == Ok(inner)
    ensures block.Lookup("z") == Ok(outer)
  {
    global := new Environment(map[], null);
    var _ := global.Define("x", outer);
    block := new Environment(map[], global);
    block.LookupDelegates("x");
    assert block.Lookup("x") == Ok(outer);
    var _ := block.Define("x", inner);
    var _ := block.Define("y", inner);
    var _ := global.Define("z", outer);
    block.LookupDelegates("z");
  }
}
