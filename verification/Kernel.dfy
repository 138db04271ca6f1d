/** The kernel behind `nft`, as a class whose calls may fail. */
module Kernels {
  import opened Wire
  import opened Nftables

  datatype ListObject = RuleObject(key: RuleKey, rule: Rule) | OtherObject

  /** A listing shows every rule of the kernel and no others, in any order, among other objects. */
  ghost predicate Lists(objs: seq<ListObject>, rules: Ruleset) {
    && (forall i ::
          0 <= i < |objs| && objs[i].RuleObject? ==> objs[i].key in rules && rules[objs[i].key] == objs[i].rule)
    && (forall k <- rules :: RuleObject(k, rules[k]) in objs)
  }

  class Kernel {
    var st: KernelState
    /** Whether calls of the `nft` program may fail for reasons of their own. */
    const faulty: bool

    ghost predicate Valid()
      reads this
    {
      st.Valid()
    }

    constructor (st: KernelState, faulty: bool)
      requires st.Valid()
      ensures Valid() && this.st == st && this.faulty == faulty
    {
      this.st := st;
      this.faulty := faulty;
    }

    /** `nft list ruleset`. */
    method List() returns (r: Option<seq<ListObject>>)
      requires Valid()
      ensures !faulty ==> r.Some?
      ensures r.Some? ==> Lists(r.value, st.rules)
    {
      var fails: bool := *;
      if faulty && fails {
        return None;
      }
      var objs, todo := [OtherObject], st.rules.Keys;
      while todo != {}
        invariant todo <= st.rules.Keys
        invariant forall i :: 0 <= i < |objs| && objs[i].RuleObject? ==>
                    objs[i].key in st.rules && st.rules[objs[i].key] == objs[i].rule
        invariant forall k <- st.rules :: k !in todo ==> RuleObject(k, st.rules[k]) in objs
      {
        var k :| k in todo;
        objs := objs + [RuleObject(k, st.rules[k])];
        todo := todo - {k};
      }
      return Some(objs);
    }

    /** Apply a batch: all of it or nothing. */
    method Apply(n: Names, batch: seq<Cmd>) returns (ok: bool)
      requires Valid()
      modifies this`st
      ensures Valid()
      ensures ok ==> Exec(n, old(st), batch) == Some(st)
      ensures !ok ==> st == old(st)
      ensures !faulty && Exec(n, old(st), batch).Some? ==> ok
    {
      var fails: bool := *;
      var after := Exec(n, st, batch);
      ok := after.Some? && !(faulty && fails);
      if ok {
        ExecValid(n, st, batch);
        st := after.value;
      }
    }
  }

  lemma {:induction false} ExecValid(n: Names, s: KernelState, batch: seq<Cmd>)
    requires s.Valid() && Exec(n, s, batch).Some?
    ensures Exec(n, s, batch).value.Valid()
    decreases |batch|
  {
    if batch != [] {
      ExecValid(n, Exec1(n, s, batch[0]).value, batch[1..]);
    }
  }
}
