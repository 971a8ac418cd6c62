/** AgentX GETNEXT: the next variable inside a search range whose start is excluded. */
module AgentXSearch {
  import opened Oids
  import opened Asn1
  import opened MibTable
  import opened NextSearch
  import opened MibTree
  import opened TreeSearch
  import opened Dispatch
  import BulkWalk
  import opened AgentX

  /** A variable below 1.3.6.1, after the start and, unless the end is null, before the end. */
  ghost predicate InRange(t: Table, lua: Lua, range: Range, w: Oid) {
    && IsVar(t, lua, w) && INTERNET < w && Less(range.start, w)
    && (range.end == [] || Less(w, range.end) || (range.endIncluded && w == range.end))
  }

  lemma StopsAtEnd(t: Table, lua: Lua, range: Range, v: Oid)
    requires ViewGives(t, lua, INTERNET, range.start, Some(v)) && !InRange(t, lua, range, v)
    ensures forall w :: !InRange(t, lua, range, w)
  {
    forall w
      ensures !InRange(t, lua, range, w)
    {
      if InRange(t, lua, range, w) && range.end != [] {
        LeTrans(v, w, range.end);
      }
    }
  }

  /** The agent's own test: the OID does not compare as past the end. */
  ghost predicate BeforeEnd(range: Range, v: Oid) {
    CmpSpec(v, range.end) < 0 || (range.endIncluded && v == range.end)
  }

  /** What the agent answers: the search result unless it compares as past the end, else the start again. */
  ghost predicate AnswersRange(t: Table, lua: Lua, range: Range, a: Option<Oid>, r: NextAnswer) {
    && Answers(t, lua, INTERNET, range.start, a)
    && if a.Some? && BeforeEnd(range, a.value)
       then r.Found? && r.oid == a.value && Lookup(t, lua, r.oid) == Some(r.value)
       else r == EndOfMibView(range.start)
  }

  /** What section 5.2 of RFC 2741 asks for: the least variable of the range, or the start again when there is none. */
  ghost predicate IsNextInRange(t: Table, lua: Lua, range: Range, r: NextAnswer) {
    match r
    case Found(v, _) => InRange(t, lua, range, v) && forall w :: InRange(t, lua, range, w) ==> Le(v, w)
    case EndOfMibView(o) => o == range.start && forall w :: !InRange(t, lua, range, w)
  }

  /**
   Where the agent's answer is right: if the start compares soundly with 1.3.6.1, when nothing is found, or there is
   an end and the variable found compares soundly with it; else when the search result is thrown away.
   */
  ghost predicate RangeRight(range: Range, a: Option<Oid>) {
    if CmpIsSafe(range.start, INTERNET) then a.Some? ==> range.end != [] && CmpIsSafe(a.value, range.end)
    else !(a.Some? && BeforeEnd(range, a.value))
  }

  /** For every range of 32-bit OIDs with an excluded start, the answer is the one asked for exactly there. */
  lemma RangeIsRight(t: Table, lua: Lua, range: Range, a: Option<Oid>, r: NextAnswer)
    requires Fits32(range.start) && |range.start| < ID_HALF && Fits32(range.end) && |range.end| < ID_HALF
    requires AnswersRange(t, lua, range, a, r) && (a.Some? ==> Fits32(a.value) && |a.value| < ID_HALF)
    ensures IsNextInRange(t, lua, range, r) <==> RangeRight(range, a)
  {
    if CmpIsSafe(range.start, INTERNET) {
      SafeStart(t, lua, range, a, r);
    } else {
      WrappedStart(t, lua, range, a, r);
    }
  }

  lemma SafeStart(t: Table, lua: Lua, range: Range, a: Option<Oid>, r: NextAnswer)
    requires Fits32(range.start) && |range.start| < ID_HALF && Fits32(range.end) && |range.end| < ID_HALF
    requires AnswersRange(t, lua, range, a, r) && (a.Some? ==> Fits32(a.value) && |a.value| < ID_HALF)
    requires CmpIsSafe(range.start, INTERNET)
    ensures IsNextInRange(t, lua, range, r) <==> (a.Some? ==> range.end != [] && CmpIsSafe(a.value, range.end))
  {
    hide Answers, CmpSpec, CmpIsSafe, Less, Lookup, IsVar;
    SearchGives(t, lua, INTERNET, range.start, a);
    if a.Some? {
      var v := a.value;
      CmpMeaning(v, range.end);
      NullEnd(v);
      Trichotomy(v, v);
      EqualIsSafe(v);
      assert InRange(t, lua, range, v) <==>
        range.end == [] || Less(v, range.end) || (range.endIncluded && v == range.end);
      assert forall w :: InRange(t, lua, range, w) ==> Le(v, w);
      if !InRange(t, lua, range, v) {
        StopsAtEnd(t, lua, range, v);
      }
    }
  }

  /** No end at all compares as an end that every OID has passed. */
  lemma NullEnd(v: Oid)
    requires |v| < ID_HALF
    ensures v != [] ==> CmpSpec(v, []) > 0
  {
    assert Lcp(v, []) == 0;
  }

  lemma EqualIsSafe(v: Oid)
    ensures CmpIsSafe(v, v)
  {
  }

  lemma WrappedStart(t: Table, lua: Lua, range: Range, a: Option<Oid>, r: NextAnswer)
    requires Fits32(range.start) && |range.start| < ID_HALF
    requires AnswersRange(t, lua, range, a, r) && !CmpIsSafe(range.start, INTERNET)
    ensures IsNextInRange(t, lua, range, r) <==> !(a.Some? && BeforeEnd(range, a.value))
  {
    hide Answers, CmpSpec, Lookup, IsVar;
    var start := range.start;
    WrappedOrder(start, INTERNET);
    assert Less(INTERNET, start);
    hide Less, CmpIsSafe;
    forall w | INTERNET <= w
      ensures !Less(start, w)
    {
      PastSubtree(INTERNET, w, start);
      Trichotomy(w, start);
    }
  }

  /** The variable 1.3.6.1.5.0 and nothing else. */
  const ONE: Oid := [1, 3, 6, 1, 5, 0]
  const ONE_LUA: Lua := OneName([3, 6, 1, 5, 0])

  lemma OneThere(start: Oid)
    requires |start| < ID_HALF && (start == INTERNET || CmpSpec(start, INTERNET) < 0)
    ensures Answers(SINGLE, ONE_LUA, INTERNET, start, Some(ONE))
    ensures Lookup(SINGLE, ONE_LUA, ONE) == Some(Integer(5))
  {
    assert [1] + [3, 6, 1, 5, 0] == ONE;
    OneVar([3, 6, 1, 5, 0], ONE);
    PrefixIsLe(INTERNET, ONE);
    Trichotomy(INTERNET, INTERNET);
    hide IsVar, Lookup, CmpSpec;
    forall w | INTERNET <= w
      ensures IsVar(SINGLE, ONE_LUA, w) <==> w == ONE
    {
      assert [1] <= w by {
        assert w[..4] == INTERNET;
      }
      OneVar([3, 6, 1, 5, 0], w);
    }
    assert INTERNET <= start ==> start == INTERNET by {
      SameSpot(start);
    }
  }

  lemma SameSpot(start: Oid)
    requires |start| < ID_HALF && (start == INTERNET || CmpSpec(start, INTERNET) < 0)
    ensures INTERNET <= start ==> start == INTERNET
  {
    if INTERNET <= start {
      assert Lcp(start, INTERNET) == 4;
    }
  }

  /** A range without an end, which has no limit: the variable ahead is found and thrown away. */
  lemma NullEndFails()
    ensures var range := Range(INTERNET, false, [], false); var r := EndOfMibView(INTERNET);
      && AnswersRange(SINGLE, ONE_LUA, range, Some(ONE), r) && !IsNextInRange(SINGLE, ONE_LUA, range, r)
  {
    var range := Range(INTERNET, false, [], false);
    OneThere(INTERNET);
    NullEnd(ONE);
    EqualIsSafe(INTERNET);
    RangeIsRight(SINGLE, ONE_LUA, range, Some(ONE), EndOfMibView(INTERNET));
  }

  /** A start far past 1.3.6.1: the search goes back to a variable the range does not hold. */
  lemma WrappedStartFails()
    ensures var range := Range([0x9000_0000], false, [2], false); var r := Found(ONE, Integer(5));
      && AnswersRange(SINGLE, ONE_LUA, range, Some(ONE), r) && !IsNextInRange(SINGLE, ONE_LUA, range, r)
  {
    var start := [0x9000_0000];
    var range := Range(start, false, [2], false);
    assert Lcp(start, INTERNET) == 0 && Lcp(ONE, [2]) == 0;
    OneThere(start);
    RangeIsRight(SINGLE, ONE_LUA, range, Some(ONE), Found(ONE, Integer(5)));
  }

  /** An end far past the variable: it is taken for one before it. */
  lemma WrappedEndFails()
    ensures var range := Range(INTERNET, false, [0x9000_0000], false); var r := EndOfMibView(INTERNET);
      && AnswersRange(SINGLE, ONE_LUA, range, Some(ONE), r) && !IsNextInRange(SINGLE, ONE_LUA, range, r)
  {
    var range := Range(INTERNET, false, [0x9000_0000], false);
    assert Lcp(ONE, range.end) == 0;
    OneThere(INTERNET);
    EqualIsSafe(INTERNET);
    RangeIsRight(SINGLE, ONE_LUA, range, Some(ONE), EndOfMibView(INTERNET));
  }

  /** GETNEXT in a range whose start is excluded. */
  method RangeNext(tree: Tree, lua: Lua, range: Range) returns (r: NextAnswer, ghost a: Option<Oid>)
    requires tree.Valid() && Served(tree.table, lua) && !range.startIncluded
    requires Fits32(range.start) && |range.start| <= VALUE_MAX_LEN
    requires Fits32(range.end) && |range.end| <= VALUE_MAX_LEN
    ensures AnswersRange(tree.table, lua, range, a, r)
    ensures IsNextInRange(tree.table, lua, range, r) <==> RangeRight(range, a)
  {
    hide Tree.Valid, Answers, Served, CmpSpec, CmpIsSafe, Lookup, IsNextInRange, RangeRight;
    var calls;
    r, calls := SearchNext(tree, INTERNET, range.start, lua);
    a := r.Name();
    if r.Found? {
      FoundFits(tree, lua, range.start, r);
      CmpMeaning(r.oid, range.end);
      var c := OidCmp(r.oid, range.end);
      if (range.endIncluded && c > 0) || (!range.endIncluded && c >= 0) {
        r := EndOfMibView(range.start);
      }
    }
    RangeIsRight(tree.table, lua, range, a, r);
  }

  lemma FoundFits(tree: Tree, lua: Lua, start: Oid, r: NextAnswer)
    requires tree.Valid() && Served(tree.table, lua) && r.Found?
      && Answers(tree.table, lua, INTERNET, start, Some(r.oid))
    ensures Fits32(r.oid) && |r.oid| <= OID_MAX_LEN
  {
    hide Tree.Valid;
    tree.RootAt();
    tree.NodeAt([]);
    BulkWalk.NameFits(tree.table, lua, r.oid);
  }
}
