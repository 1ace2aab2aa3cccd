/**
Narrowing one role to the grants validation accepts: a greedy fixpoint that
judges a grant by what removing it fixes, and accounts for every grant it
takes out.
*/
module NarrowRole {
  import opened Catalog

  type Target = string
  type Permissions = set<string>
  type Grants = map<Target, Permissions>

  /** The problems validation reports about a role holding these grants, in order. */
  type Judge = Grants -> seq<string>

  /** A grant taken out, and the problems its removal fixed. */
  datatype LeftOut = LeftOut(target: Target, permissions: Permissions, fixed: seq<string>)

  function Targets(out: seq<LeftOut>): set<Target> {
    set x | x in out :: x.target
  }

  ghost predicate Once(out: seq<LeftOut>) {
    forall i, j :: 0 <= i < j < |out| ==> out[i].target != out[j].target
  }

  /** Every original grant is kept as it was or reported left out, once, as it was. */
  ghost predicate Accounted(original: Grants, kept: Grants, out: seq<LeftOut>) {
    && Once(out)
    && kept.Keys !! Targets(out)
    && original.Keys == kept.Keys + Targets(out)
    && (forall t :: t in kept ==> kept[t] == original[t])
    && (forall i :: 0 <= i < |out| ==> out[i].target in original && out[i].permissions == original[out[i].target])
  }

  /** No single grant's removal lowers the number of problems. */
  ghost predicate Minimal(judge: Judge, kept: Grants) {
    forall t :: t in kept ==> |judge(kept - {t})| >= |judge(kept)|
  }

  lemma TakeOut(original: Grants, kept: Grants, out: seq<LeftOut>, t: Target, fixed: seq<string>)
    requires Accounted(original, kept, out) && t in kept
    ensures Accounted(original, kept - {t}, out + [LeftOut(t, kept[t], fixed)])
  {
    var out' := out + [LeftOut(t, kept[t], fixed)];
    assert Targets(out') == Targets(out) + {t} by {
      assert forall x :: x in out' <==> x in out || x == LeftOut(t, kept[t], fixed);
      assert out'[|out|].target == t;
      forall u | u in Targets(out) ensures u in Targets(out') {
        var x :| x in out && x.target == u;
        assert x in out';
      }
    }
    forall i | 0 <= i < |out| ensures out[i].target != t {
      assert out[i].target in Targets(out);
    }
  }

  function Fixed(before: seq<string>, after: seq<string>): seq<string> {
    if before == [] then []
    else (if before[0] in after then [] else [before[0]]) + Fixed(before[1..], after)
  }

  /** What the role still held when it lost its `i`-th grant. */
  ghost function Held(original: Grants, out: seq<LeftOut>, i: nat): Grants
    requires i <= |out|
  {
    original - Targets(out[..i])
  }

  /** Taking it out left fewer problems, and it is reported with the ones that went. */
  ghost predicate CarriedAt(judge: Judge, original: Grants, out: seq<LeftOut>, i: nat)
    requires i < |out|
  {
    Carries(judge, Held(original, out, i), out[i])
  }

  ghost predicate Carries(judge: Judge, held: Grants, x: LeftOut) {
    var before, after := judge(held), judge(held - {x.target});
    |after| < |before| && Reports(x.fixed, before, after)
  }

  /** The problems of `before` that are not in `after`, as often. */
  ghost predicate Reports(fixed: seq<string>, before: seq<string>, after: seq<string>) {
    forall p :: multiset(fixed)[p] == if p in after then 0 else multiset(before)[p]
  }

  ghost predicate AllCarried(judge: Judge, original: Grants, out: seq<LeftOut>, n: nat)
    requires n <= |out|
  {
    forall i :: 0 <= i < n ==> CarriedAt(judge, original, out, i)
  }

  lemma {:induction false} FixedReports(before: seq<string>, after: seq<string>)
    ensures Reports(Fixed(before, after), before, after)
  {
    if before != [] {
      FixedReports(before[1..], after);
      assert before == [before[0]] + before[1..];
    }
  }

  lemma HeldIsKept(original: Grants, kept: Grants, out: seq<LeftOut>)
    requires Accounted(original, kept, out)
    ensures Held(original, out, |out|) == kept
  {
    assert out[..|out|] == out;
  }

  lemma CarryOn(judge: Judge, original: Grants, kept: Grants, out: seq<LeftOut>, n: nat, x: LeftOut)
    requires Accounted(original, kept, out) && n <= |out| && AllCarried(judge, original, out, n)
    ensures AllCarried(judge, original, out + [x], n)
    ensures forall i: nat :: i <= |out| ==> Held(original, out + [x], i) == Held(original, out, i)
    ensures (n == |out| && Carries(judge, kept, x)) ==> AllCarried(judge, original, out + [x], n + 1)
  {
    var more := out + [x];
    forall i: nat | i <= |out| ensures more[..i] == out[..i] {
    }
    HeldIsKept(original, kept, out);
    forall i | 0 <= i < n ensures CarriedAt(judge, original, more, i) {
      assert CarriedAt(judge, original, out, i);
    }
  }

  /** One pass over the grants held at its start. */
  method Pass(judge: Judge, ghost original: Grants, kept0: Grants, out0: seq<LeftOut>)
      returns (kept: Grants, out: seq<LeftOut>, changed: bool)
    requires Accounted(original, kept0, out0) && AllCarried(judge, original, out0, |out0|)
    ensures Accounted(original, kept, out) && AllCarried(judge, original, out, |out|)
    ensures |out| + |judge(kept)| <= |out0| + |judge(kept0)|
    ensures changed ==> |judge(kept)| < |judge(kept0)|
    ensures !changed ==> kept == kept0 && out == out0 && (judge(kept) == [] || Minimal(judge, kept))
  {
    kept, out, changed := kept0, out0, false;
    var problems := judge(kept);
    var targets := kept.Keys;
    while targets != {}
      invariant targets <= kept.Keys
      invariant problems == judge(kept)
      invariant Accounted(original, kept, out) && AllCarried(judge, original, out, |out|)
      invariant |out| + |problems| <= |out0| + |judge(kept0)|
      invariant changed ==> |problems| < |judge(kept0)|
      invariant !changed ==> kept == kept0 && out == out0
      invariant !changed ==> forall t :: t in kept && t !in targets ==> |judge(kept - {t})| >= |problems|
      decreases targets
    {
      var target :| target in targets;
      var permissions := kept[target];
      var without := kept - {target};
      var after := judge(without);
      if |after| < |problems| {
        FixedReports(problems, after);
        CarryOn(judge, original, kept, out, |out|, LeftOut(target, permissions, Fixed(problems, after)));
        TakeOut(original, kept, out, target, Fixed(problems, after));
        out := out + [LeftOut(target, permissions, Fixed(problems, after))];
        kept, problems, changed := without, after, true;
        if problems == [] { return; }
      }
      targets := targets - {target};
    }
  }

  /** The role lost the first `n` grants one by one, and then the rest with itself. */
  ghost predicate GaveUpAt(judge: Judge, original: Grants, out: seq<LeftOut>, n: nat)
    requires n <= |out|
  {
    && AllCarried(judge, original, out, n)
    && judge(Held(original, out, n)) != [] && Minimal(judge, Held(original, out, n))
    && forall i :: n <= i < |out| ==> out[i].fixed == []
  }

  /**
  Takes out of the role the grants that carry its problems, until a pass
  changes nothing. What is left is then a combination no single grant carries;
  where the role is refused with no grant at all, the role goes with the rest.
  */
  method NarrowRole(judge: Judge, original: Grants)
      returns (kept: Grants, out: seq<LeftOut>, whole: Option<seq<string>>)
    ensures Accounted(original, kept, out)
    ensures whole.None? ==> judge(kept) == [] || (Minimal(judge, kept) && judge(map[]) == [])
    ensures whole.None? ==> |out| + |judge(kept)| <= |judge(original)|
    ensures whole.None? ==> AllCarried(judge, original, out, |out|)
    ensures whole.Some? ==> kept == map[] && whole.value == judge(map[]) && whole.value != []
    ensures whole.Some? ==> exists n: nat :: n <= |out| && GaveUpAt(judge, original, out, n)
  {
    kept, out, whole := original, [], None;
    var changed := true;
    while changed
      invariant Accounted(original, kept, out) && AllCarried(judge, original, out, |out|)
      invariant |out| + |judge(kept)| <= |judge(original)|
      invariant !changed ==> judge(kept) == [] || Minimal(judge, kept)
      decreases |judge(kept)|, changed
    {
      if judge(kept) == [] { return; }
      kept, out, changed := Pass(judge, original, kept, out);
    }
    var own := judge(map[]);
    if judge(kept) == [] || own == [] { return; }
    HeldIsKept(original, kept, out);
    kept, out := Discard(judge, original, kept, out);
    whole := Some(own);
  }

  lemma GiveUpOn(judge: Judge, original: Grants, kept: Grants, out: seq<LeftOut>, n: nat, x: LeftOut)
    requires Accounted(original, kept, out) && n <= |out| && GaveUpAt(judge, original, out, n) && x.fixed == []
    ensures GaveUpAt(judge, original, out + [x], n)
  {
    CarryOn(judge, original, kept, out, n, x);
  }

  /** Leaves out every grant the role still holds, with the role. */
  method Discard(ghost judge: Judge, ghost original: Grants, kept0: Grants, out0: seq<LeftOut>)
      returns (kept: Grants, out: seq<LeftOut>)
    requires Accounted(original, kept0, out0) && GaveUpAt(judge, original, out0, |out0|)
    ensures Accounted(original, kept, out) && kept == map[]
    ensures |out0| <= |out| && GaveUpAt(judge, original, out, |out0|)
  {
    kept, out := kept0, out0;
    while kept != map[]
      invariant Accounted(original, kept, out)
      invariant |out0| <= |out| && GaveUpAt(judge, original, out, |out0|)
      decreases kept.Keys
    {
      assert kept.Keys != {};
      var target :| target in kept.Keys;
      GiveUpOn(judge, original, kept, out, |out0|, LeftOut(target, kept[target], []));
      TakeOut(original, kept, out, target, []);
      out := out + [LeftOut(target, kept[target], [])];
      kept := kept - {target};
    }
  }

  /** No grant is lost or reported twice: kept and left out add up to what the role held. */
  lemma AccountedAddsUp(original: Grants, kept: Grants, out: seq<LeftOut>)
    requires Accounted(original, kept, out)
    ensures |original| == |kept| + |out|
  {
    TargetsCount(out);
    assert |original.Keys| == |kept.Keys| + |Targets(out)|;
  }

  lemma {:induction false} TargetsCount(out: seq<LeftOut>)
    requires Once(out)
    ensures |Targets(out)| == |out|
  {
    if out != [] {
      var n := |out| - 1;
      TargetsCount(out[..n]);
      assert Targets(out) == Targets(out[..n]) + {out[n].target} by {
        assert out == out[..n] + [out[n]];
        assert forall x :: x in out <==> x in out[..n] || x == out[n];
        forall u | u in Targets(out[..n]) ensures u in Targets(out) {
          var x :| x in out[..n] && x.target == u;
          assert x in out;
        }
      }
    }
  }
}
