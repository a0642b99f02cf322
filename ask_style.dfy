/** The cascade winner for one property of a node (src/engine/dom/shared_node/ask_style.rs). */
module Cascade {
  import opened Wrappers
  import opened Stylesheet
  import opened Nodes

  /** `origin.value(important)`: the cascade tier of an applied style. */
  function Rank(a: AppliedStyle): nat {
    OriginValue(a.origin, a.value.important)
  }

  /** What the passes of `ask_style` filter on. */
  datatype Criterion =
    | KeyIs(key: string)
    | RankIs(rank: nat)
    | SpecificityIs(spec: Specificity)
    | Survives(key: string, rank: nat, spec: Specificity)

  predicate Meets(a: AppliedStyle, c: Criterion) {
    match c
    case KeyIs(key) => a.key == key
    case RankIs(v) => Rank(a) == v
    case SpecificityIs(sp) => a.ruleSpecificity == sp
    case Survives(key, v, sp) => a.key == key && Rank(a) == v && a.ruleSpecificity == sp
  }

  /** The entries of `s` meeting `c`, in order (Rust's `filter` and `retain`). */
  function Keep(s: seq<AppliedStyle>, c: Criterion): seq<AppliedStyle>
    decreases |s|
  {
    if s == [] then []
    else
      var rest := Keep(s[..|s| - 1], c);
      if Meets(s[|s| - 1], c) then rest + [s[|s| - 1]] else rest
  }

  /** Filtering keeps exactly the entries that meet the criterion. */
  lemma {:induction false} KeepMembers(s: seq<AppliedStyle>, c: Criterion)
    ensures forall x :: x in Keep(s, c) ==> x in s && Meets(x, c)
    ensures forall x :: x in s && Meets(x, c) ==> x in Keep(s, c)
    decreases |s|
  {
    if s != [] {
      KeepMembers(s[..|s| - 1], c);
      SplitLast(s);
    }
  }

  /** The three passes of `ask_style` keep what survives all three criteria, in order. */
  lemma {:induction false} KeepThrice(s: seq<AppliedStyle>, key: string, v: nat, sp: Specificity)
    ensures Keep(Keep(Keep(s, KeyIs(key)), RankIs(v)), SpecificityIs(sp)) == Keep(s, Survives(key, v, sp))
    decreases |s|
  {
    if s != [] {
      var prefix, x := s[..|s| - 1], s[|s| - 1];
      KeepThrice(prefix, key, v, sp);
      var k1 := Keep(prefix, KeyIs(key));
      var k2 := Keep(k1, RankIs(v));
      if x.key == key {
        assert (k1 + [x])[..|k1|] == k1;
        if Rank(x) == v {
          assert (k2 + [x])[..|k2|] == k2;
        }
      }
    }
  }

  /** The first entry a filter keeps is the first entry of `s` that meets the criterion. */
  lemma {:induction false} KeepFirst(s: seq<AppliedStyle>, c: Criterion) returns (i: nat)
    requires Keep(s, c) != []
    ensures i < |s| && s[i] == Keep(s, c)[0] && Meets(s[i], c)
    ensures forall j :: 0 <= j < i ==> !Meets(s[j], c)
    decreases |s|
  {
    var prefix := s[..|s| - 1];
    if Keep(prefix, c) != [] {
      i := KeepFirst(prefix, c);
    } else {
      i := |s| - 1;
      KeepMembers(prefix, c);
      forall j | 0 <= j < i
        ensures !Meets(s[j], c)
      {
        assert s[j] in prefix;
      }
    }
  }

  /**
   * `w` wins the cascade for `key` among `styles`: it is an entry for `key`, no entry for `key`
   * has a higher tier, none of its tier has a higher specificity, and no earlier entry for
   * `key` ties with it on both.
   */
  ghost predicate Wins(styles: seq<AppliedStyle>, key: string, w: AppliedStyle) {
    && w.key == key
    && (forall j :: 0 <= j < |styles| && styles[j].key == key ==> Rank(styles[j]) <= Rank(w))
    && (forall j :: 0 <= j < |styles| && styles[j].key == key && Rank(styles[j]) == Rank(w) ==>
          !SpecLess(w.ruleSpecificity, styles[j].ruleSpecificity))
    && exists i :: 0 <= i < |styles| && styles[i] == w &&
         forall j :: 0 <= j < i && styles[j].key == key && Rank(styles[j]) == Rank(w) ==>
           styles[j].ruleSpecificity != w.ruleSpecificity
  }

  /** At most one applied style wins. */
  lemma WinnerUnique(styles: seq<AppliedStyle>, key: string, w1: AppliedStyle, w2: AppliedStyle)
    requires Wins(styles, key, w1) && Wins(styles, key, w2)
    ensures w1 == w2
  {
    var i1 :| 0 <= i1 < |styles| && styles[i1] == w1 &&
      forall j :: 0 <= j < i1 && styles[j].key == key && Rank(styles[j]) == Rank(w1) ==>
        styles[j].ruleSpecificity != w1.ruleSpecificity;
    var i2 :| 0 <= i2 < |styles| && styles[i2] == w2 &&
      forall j :: 0 <= j < i2 && styles[j].key == key && Rank(styles[j]) == Rank(w2) ==>
        styles[j].ruleSpecificity != w2.ruleSpecificity;
    assert Rank(w1) == Rank(w2);
    SpecLessStrictTotal(w1.ruleSpecificity, w2.ruleSpecificity, w1.ruleSpecificity);
    assert w1.ruleSpecificity == w2.ruleSpecificity;
    assert i1 == i2;
  }

  /** `ask_style`: the winning applied style for `key`, or None when no entry has that key; the node is only read. */
  method AskStyle(n: Node, key: string) returns (r: Option<AppliedStyle>)
    ensures r.None? <==> forall i :: 0 <= i < |n.appliedStyles| ==> n.appliedStyles[i].key != key
    ensures r.Some? ==> r.value in n.appliedStyles && Wins(n.appliedStyles, key, r.value)
  {
    var styles := n.appliedStyles;
    var filtered := KeepPass(styles, KeyIs(key));
    KeepMembers(styles, KeyIs(key));
    if filtered == [] {
      forall i | 0 <= i < |styles|
        ensures styles[i].key != key
      {
        assert styles[i] in styles;
      }
      return None;
    }
    var maxRank := MaxRank(filtered);
    var top := KeepPass(filtered, RankIs(maxRank));
    KeepMembers(filtered, RankIs(maxRank));
    ghost var k :| 0 <= k < |filtered| && Rank(filtered[k]) == maxRank;
    assert filtered[k] in top;
    var maxSpec := MaxSpecificity(top);
    var best := KeepPass(top, SpecificityIs(maxSpec));
    KeepMembers(top, SpecificityIs(maxSpec));
    ghost var k' :| 0 <= k' < |top| && top[k'].ruleSpecificity == maxSpec;
    assert top[k'] in best;
    r := Some(best[0]);
    WinsByFilters(styles, key, maxRank, maxSpec);
  }

  /** A `filter` or `retain` pass: the entries meeting `c`, in order. */
  method KeepPass(s: seq<AppliedStyle>, c: Criterion) returns (r: seq<AppliedStyle>)
    ensures r == Keep(s, c)
  {
    r := [];
    for i := 0 to |s|
      invariant r == Keep(s[..i], c)
    {
      assert s[..i + 1][..i] == s[..i];
      if Meets(s[i], c) {
        r := r + [s[i]];
      }
    }
    assert s[..|s|] == s;
  }

  /** `.map(origin.value(important)).max()` on a non-empty list: the highest tier present. */
  method MaxRank(s: seq<AppliedStyle>) returns (m: nat)
    requires s != []
    ensures exists k :: 0 <= k < |s| && Rank(s[k]) == m
    ensures forall a :: a in s ==> Rank(a) <= m
  {
    m := Rank(s[0]);
    ghost var at := 0;
    for i := 1 to |s|
      invariant 0 <= at < i && Rank(s[at]) == m
      invariant forall k :: 0 <= k < i ==> Rank(s[k]) <= m
    {
      if Rank(s[i]) > m {
        m, at := Rank(s[i]), i;
      }
    }
  }

  /** `.map(rule_specificity).max()` on a non-empty list: the highest specificity present. */
  method MaxSpecificity(s: seq<AppliedStyle>) returns (m: Specificity)
    requires s != []
    ensures exists k :: 0 <= k < |s| && s[k].ruleSpecificity == m
    ensures forall a :: a in s ==> !SpecLess(m, a.ruleSpecificity)
  {
    m := s[0].ruleSpecificity;
    ghost var at := 0;
    for i := 1 to |s|
      invariant 0 <= at < i && s[at].ruleSpecificity == m
      invariant forall k :: 0 <= k < i ==> !SpecLess(m, s[k].ruleSpecificity)
    {
      SpecLessStrictTotal(m, s[i].ruleSpecificity, m);
      if SpecLess(m, s[i].ruleSpecificity) {
        m, at := s[i].ruleSpecificity, i;
        forall k | 0 <= k < i
          ensures !SpecLess(m, s[k].ruleSpecificity)
        {
          SpecLessStrictTotal(s[k].ruleSpecificity, s[at].ruleSpecificity, m);
        }
      }
    }
  }

  /** The survivors of the three filters, if any, start with the winner. */
  lemma WinsByFilters(styles: seq<AppliedStyle>, key: string, maxRank: nat, maxSpec: Specificity)
    requires forall a :: a in Keep(styles, KeyIs(key)) ==> Rank(a) <= maxRank
    requires forall a :: a in Keep(Keep(styles, KeyIs(key)), RankIs(maxRank)) ==> !SpecLess(maxSpec, a.ruleSpecificity)
    requires Keep(Keep(Keep(styles, KeyIs(key)), RankIs(maxRank)), SpecificityIs(maxSpec)) != []
    ensures
      var best := Keep(Keep(Keep(styles, KeyIs(key)), RankIs(maxRank)), SpecificityIs(maxSpec));
      best[0] in styles && Wins(styles, key, best[0])
  {
    var filtered := Keep(styles, KeyIs(key));
    var top := Keep(filtered, RankIs(maxRank));
    KeepMembers(styles, KeyIs(key));
    KeepMembers(filtered, RankIs(maxRank));
    KeepThrice(styles, key, maxRank, maxSpec);
    var i := KeepFirst(styles, Survives(key, maxRank, maxSpec));
    var w := styles[i];
    forall j | 0 <= j < |styles| && styles[j].key == key
      ensures Rank(styles[j]) <= Rank(w)
    {
      assert styles[j] in filtered;
    }
    forall j | 0 <= j < |styles| && styles[j].key == key && Rank(styles[j]) == Rank(w)
      ensures !SpecLess(w.ruleSpecificity, styles[j].ruleSpecificity)
    {
      assert styles[j] in top;
    }
  }
}
