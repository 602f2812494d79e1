/** Day 6, "Universal Orbit Map": parse `A)B` lines ("B orbits A") into a
    map from each body to the list of bodies it orbits, count direct plus
    indirect orbits, and count the orbital transfers between the bodies
    two objects orbit. */
module OrbitMap {
  import opened Wrappers
  import opened Sequences

  // ---------------------------------------------------------------------
  // Parsing one line: line.strip().split(")")
  // ---------------------------------------------------------------------

  /** The characters Python's `str.isspace` accepts, which `strip()` removes. */
  predicate IsSpace(c: char)
  {
    || c == ' ' || '\t' <= c <= '\r' || '\U{1C}' <= c <= '\U{1F}'
    || c == '\U{85}' || c == '\U{A0}' || c == '\U{1680}' || '\U{2000}' <= c <= '\U{200A}'
    || c == '\U{2028}' || c == '\U{2029}' || c == '\U{202F}' || c == '\U{205F}' || c == '\U{3000}'
  }

  function TrimStart(s: string): (r: string)
    ensures |r| <= |s| && r == s[|s| - |r|..]
    ensures forall k :: 0 <= k < |s| - |r| ==> IsSpace(s[k])
    ensures r == [] || !IsSpace(r[0])
  {
    if s != [] && IsSpace(s[0]) then TrimStart(s[1..]) else s
  }

  function TrimEnd(s: string): (r: string)
    ensures |r| <= |s| && r == s[..|r|]
    ensures forall k :: |r| <= k < |s| ==> IsSpace(s[k])
    ensures r == [] || !IsSpace(r[|r| - 1])
  {
    if s != [] && IsSpace(s[|s| - 1]) then TrimEnd(s[..|s| - 1]) else s
  }

  /** `str.strip()`: the line without leading and trailing whitespace. */
  function Strip(s: string): (r: string)
    ensures r == [] || (!IsSpace(r[0]) && !IsSpace(r[|r| - 1]))
  {
    var t := TrimStart(s);
    var r := TrimEnd(t);
    assert r != [] ==> r[0] == t[0];
    r
  }

  /** A line with no surrounding whitespace is left as it is. */
  lemma StripKeeps(s: string)
    requires s == [] || (!IsSpace(s[0]) && !IsSpace(s[|s| - 1]))
    ensures Strip(s) == s
  {
  }

  /** One record: `body` is in orbit around `center` (written `center)body`). */
  datatype Orbit = Orbit(center: string, body: string)

  function Format(o: Orbit): string
  {
    o.center + ")" + o.body
  }

  /** A record that its own line reproduces. */
  predicate Printable(o: Orbit)
  {
    && ')' !in o.center && ')' !in o.body
    && (o.center == [] || !IsSpace(o.center[0]))
    && (o.body == [] || !IsSpace(o.body[|o.body| - 1]))
  }

  /** Cutting a string with one `)` around it. */
  lemma SplitAtBracket(s: string)
    requires multiset(s)[')'] == 1
    ensures var i := IndexOf(s, ')');
      s == s[..i] + ")" + s[i + 1..] && ')' !in s[..i] && ')' !in s[i + 1..]
  {
    var i := IndexOf(s, ')');
    var c, b := s[..i], s[i + 1..];
    assert s == c + [')'] + b;
    assert ')' !in c by {
      forall k | 0 <= k < |c| ensures c[k] != ')' { assert c[k] == s[k]; }
    }
    assert multiset(s) == multiset(c) + multiset{')'} + multiset(b);
    assert multiset(b)[')'] == 0;
  }

  lemma SplitKeepsEnds(s: string, i: nat)
    requires i < |s|
    requires !IsSpace(s[0]) && !IsSpace(s[|s| - 1])
    ensures s[..i] == [] || !IsSpace(s[..i][0])
    ensures s[i + 1..] == [] || !IsSpace(s[i + 1..][|s[i + 1..]| - 1])
  {
    assert s[..i] != [] ==> s[..i][0] == s[0];
    assert s[i + 1..] != [] ==> s[i + 1..][|s[i + 1..]| - 1] == s[|s| - 1];
  }

  /** `orbiting, obj = line.strip().split(")")`: the unpacking succeeds
      exactly when the stripped line holds one `)`. */
  function ParseLine(line: string): Option<Orbit>
  {
    var s := Strip(line);
    if multiset(s)[')'] != 1 then None
    else
      var i := IndexOf(s, ')');
      Some(Orbit(s[..i], s[i + 1..]))
  }

  /** A line parses exactly when its stripped text holds one `)`, and then
      into a record that writes back out as that text. */
  lemma ParseLineSpec(line: string)
    ensures ParseLine(line).Some? <==> multiset(Strip(line))[')'] == 1
    ensures ParseLine(line).Some? ==> Format(ParseLine(line).value) == Strip(line) && Printable(ParseLine(line).value)
  {
    var s := Strip(line);
    if multiset(s)[')'] == 1 {
      var i := IndexOf(s, ')');
      SplitAtBracket(s);
      SplitKeepsEnds(s, i);
    }
  }

  /** The first `)` of a written record is the one after its center. */
  lemma BracketAt(o: Orbit)
    requires ')' !in o.center
    ensures ')' in Format(o) && IndexOf(Format(o), ')') == |o.center|
  {
    var s := Format(o);
    assert s[|o.center|] == ')';
    forall k | 0 <= k < |o.center| ensures s[k] != ')' {
      assert s[k] == o.center[k];
    }
  }

  /** Records without `)` in their centers are told apart by their lines. */
  lemma FormatInjective(o1: Orbit, o2: Orbit)
    requires ')' !in o1.center && ')' !in o2.center && Format(o1) == Format(o2)
    ensures o1 == o2
  {
    BracketAt(o1);
    BracketAt(o2);
    var s := Format(o1);
    var i := |o1.center|;
    assert s == o1.center + [')'] + o1.body;
    assert s == o2.center + [')'] + o2.body;
    assert o1.center == s[..i] && o1.body == s[i + 1..];
    assert o2.center == s[..i] && o2.body == s[i + 1..];
  }

  /** Writing a record out and parsing it back gives the record. */
  lemma ParseFormat(o: Orbit)
    requires Printable(o)
    ensures ParseLine(Format(o)) == Some(o)
  {
    var s := Format(o);
    assert s == o.center + [')'] + o.body;
    StripKeeps(s);
    assert multiset(s) == multiset(o.center) + multiset{')'} + multiset(o.body);
    assert multiset(o.center)[')'] == 0 && multiset(o.body)[')'] == 0;
    ParseLineSpec(s);
    FormatInjective(ParseLine(s).value, o);
  }

  // ---------------------------------------------------------------------
  // parse_input: galaxy[obj].append(orbiting) for every line
  // ---------------------------------------------------------------------

  /** A `defaultdict(list)`: its keys in insertion order, and their lists. */
  datatype Galaxy = Galaxy(order: seq<string>, parents: map<string, seq<string>>)

  ghost predicate WellFormed(g: Galaxy)
  {
    && (forall k :: k in g.parents <==> k in g.order)
    && (forall i, j :: 0 <= i < j < |g.order| ==> g.order[i] != g.order[j])
  }

  /** Every list holds at least one center. */
  ghost predicate NonEmptyLists(g: Galaxy)
  {
    forall k :: k in g.parents ==> |g.parents[k]| >= 1
  }

  /** `galaxy[body].append(center)` on a `defaultdict(list)`: a missing key
      is first inserted, at the end of the key order, with an empty list. */
  function Append(g: Galaxy, body: string, center: string): Galaxy
  {
    if body in g.parents then Galaxy(g.order, g.parents[body := g.parents[body] + [center]])
    else Galaxy(g.order + [body], g.parents[body := [center]])
  }

  /** Appending adds the body as a key (at the end of the key order when it
      is new), puts the center at the end of its list, leaves every other
      list alone, and keeps the galaxy well formed. */
  lemma AppendSpec(g: Galaxy, body: string, center: string)
    ensures var r := Append(g, body, center);
      && (WellFormed(g) ==> WellFormed(r))
      && (NonEmptyLists(g) ==> NonEmptyLists(r))
      && r.parents.Keys == g.parents.Keys + {body}
      && r.parents[body] == (if body in g.parents then g.parents[body] else []) + [center]
      && (forall k :: k in g.parents && k != body ==> r.parents[k] == g.parents[k])
      && r.order == (if body in g.parents then g.order else g.order + [body])
  {
  }

  /** The records of all lines, or None when some line does not parse. */
  function ParseAll(lines: seq<string>): Option<seq<Orbit>>
  {
    MapAll(lines, ParseLine)
  }

  /** The centers of the records for `body`, in line order. */
  function CentersOf(recs: seq<Orbit>, body: string): (cs: seq<string>)
    ensures |cs| <= |recs|
  {
    if recs == [] then []
    else
      var last := recs[|recs| - 1];
      CentersOf(recs[..|recs| - 1], body) + (if last.body == body then [last.center] else [])
  }

  lemma {:induction false} CentersOfEmpty(recs: seq<Orbit>, body: string)
    ensures CentersOf(recs, body) == [] <==> forall i :: 0 <= i < |recs| ==> recs[i].body != body
  {
    if recs != [] {
      var init := recs[..|recs| - 1];
      CentersOfEmpty(init, body);
      assert forall i :: 0 <= i < |init| ==> init[i] == recs[i];
    }
  }

  /** The galaxy the records describe, built one record at a time. */
  function GalaxyOf(recs: seq<Orbit>): Galaxy
  {
    if recs == [] then Galaxy([], map[])
    else
      var last := recs[|recs| - 1];
      Append(GalaxyOf(recs[..|recs| - 1]), last.body, last.center)
  }

  /** The parsed galaxy keeps its keys and key order in step, and no list is
      empty. */
  lemma {:induction false} GalaxyOfWellFormed(recs: seq<Orbit>)
    ensures WellFormed(GalaxyOf(recs)) && NonEmptyLists(GalaxyOf(recs))
  {
    if recs != [] {
      var last := recs[|recs| - 1];
      GalaxyOfWellFormed(recs[..|recs| - 1]);
      AppendSpec(GalaxyOf(recs[..|recs| - 1]), last.body, last.center);
    }
  }

  /** The galaxy has a key for exactly the bodies of the records. */
  lemma {:induction false} GalaxyOfKeys(recs: seq<Orbit>, b: string)
    ensures b in GalaxyOf(recs).parents <==> exists i :: 0 <= i < |recs| && recs[i].body == b
  {
    if recs != [] {
      var init := recs[..|recs| - 1];
      var last := recs[|recs| - 1];
      GalaxyOfKeys(init, b);
      AppendSpec(GalaxyOf(init), last.body, last.center);
      assert GalaxyOf(recs).parents.Keys == GalaxyOf(init).parents.Keys + {last.body};
      if b == last.body {
        assert recs[|recs| - 1].body == b;
      } else {
        if i :| 0 <= i < |recs| && recs[i].body == b {
          assert i < |init| && init[i] == recs[i];
        }
        if i :| 0 <= i < |init| && init[i].body == b {
          assert recs[i] == init[i];
        }
      }
    }
  }

  /** Each key's list holds the centers recorded for it, in line order. */
  lemma {:induction false} GalaxyOfLists(recs: seq<Orbit>, b: string)
    requires b in GalaxyOf(recs).parents
    ensures GalaxyOf(recs).parents[b] == CentersOf(recs, b)
  {
    var init := recs[..|recs| - 1];
    var last := recs[|recs| - 1];
    AppendSpec(GalaxyOf(init), last.body, last.center);
    if b in GalaxyOf(init).parents {
      GalaxyOfLists(init, b);
    } else {
      GalaxyOfKeys(init, b);
      CentersOfEmpty(init, b);
      forall i | 0 <= i < |init| ensures init[i].body != b { }
    }
  }

  /** `parse_input(lines)`: None stands for the ValueError of a line
      without exactly one `)`. */
  method ParseInput(lines: seq<string>) returns (r: Option<Galaxy>)
    ensures r.None? <==> ParseAll(lines).None?
    ensures r.Some? ==> r.value == GalaxyOf(ParseAll(lines).value)
  {
    var galaxy := Galaxy([], map[]);
    ghost var recs: seq<Orbit> := [];
    var i := 0;
    while i < |lines|
      invariant 0 <= i <= |lines|
      invariant ParseAll(lines[..i]) == Some(recs)
      invariant galaxy == GalaxyOf(recs)
    {
      var parsed := ParseLine(lines[i]);
      if parsed.None? {
        return None;
      }
      var o := parsed.value;
      ParseStep(lines, i, recs, o);
      galaxy := Append(galaxy, o.body, o.center);
      recs := recs + [o];
      i := i + 1;
    }
    assert lines[..i] == lines;
    r := Some(galaxy);
  }

  /** Parsing fails exactly when some line lacks its single `)`; otherwise
      there is one record per line, each the parse of its line. */
  lemma ParseAllMeaning(lines: seq<string>)
    ensures ParseAll(lines).None? <==> exists i :: 0 <= i < |lines| && ParseLine(lines[i]).None?
    ensures ParseAll(lines).Some? ==>
      && |ParseAll(lines).value| == |lines|
      && forall i :: 0 <= i < |lines| ==> ParseLine(lines[i]) == Some(ParseAll(lines).value[i])
  {
  }

  lemma ParseStep(lines: seq<string>, i: nat, recs: seq<Orbit>, o: Orbit)
    requires i < |lines| && ParseAll(lines[..i]) == Some(recs) && ParseLine(lines[i]) == Some(o)
    ensures ParseAll(lines[..i + 1]) == Some(recs + [o])
    ensures GalaxyOf(recs + [o]) == Append(GalaxyOf(recs), o.body, o.center)
  {
    MapAllPrefix(lines, i, ParseLine);
    assert (recs + [o])[..|recs|] == recs;
  }

  /** The total of the list lengths, summed over the given keys (a name
      without a list adds nothing). */
  function ListTotal(keys: seq<string>, parents: map<string, seq<string>>): nat
  {
    if keys == [] then 0
    else
      var k := keys[|keys| - 1];
      ListTotal(keys[..|keys| - 1], parents) + (if k in parents then |parents[k]| else 0)
  }

  lemma {:induction false} ListTotalUpdate(keys: seq<string>, parents: map<string, seq<string>>, k: string, v: seq<string>)
    requires k in parents
    requires forall i, j :: 0 <= i < j < |keys| ==> keys[i] != keys[j]
    ensures ListTotal(keys, parents[k := v]) ==
      ListTotal(keys, parents) + (if k in keys then |v| - |parents[k]| else 0)
  {
    if keys != [] {
      var init := keys[..|keys| - 1];
      ListTotalUpdate(init, parents, k, v);
      assert keys[|keys| - 1] == k ==> k !in init;
      assert k in keys ==> k in init || keys[|keys| - 1] == k;
    }
  }

  lemma {:induction false} ListTotalFresh(keys: seq<string>, parents: map<string, seq<string>>, k: string, v: seq<string>)
    requires k !in keys
    ensures ListTotal(keys, parents[k := v]) == ListTotal(keys, parents)
  {
    if keys != [] {
      var init := keys[..|keys| - 1];
      assert k !in init;
      ListTotalFresh(init, parents, k, v);
    }
  }

  /** The lists of the parsed galaxy hold one entry per line in all: no
      line's center is lost or overwritten. */
  lemma {:induction false} GalaxyOfTotal(recs: seq<Orbit>)
    ensures ListTotal(GalaxyOf(recs).order, GalaxyOf(recs).parents) == |recs|
  {
    if recs != [] {
      var init := recs[..|recs| - 1];
      var o := recs[|recs| - 1];
      GalaxyOfTotal(init);
      GalaxyOfWellFormed(init);
      var g := GalaxyOf(init);
      if o.body in g.parents {
        ListTotalUpdate(g.order, g.parents, o.body, g.parents[o.body] + [o.center]);
      } else {
        ListTotalFresh(g.order, g.parents, o.body, [o.center]);
        var keys := g.order + [o.body];
        assert keys[..|keys| - 1] == g.order;
      }
    }
  }

  // ---------------------------------------------------------------------
  // count_total_orbits and total_count
  // ---------------------------------------------------------------------

  /** A rank for every key that drops from the key to each of its centers
      that is itself a key: following centers never comes back round. */
  ghost predicate Ranked(g: Galaxy, rank: map<string, nat>)
  {
    && (forall k :: k in g.parents ==> k in rank)
    && (forall k, i :: k in g.parents && 0 <= i < |g.parents[k]| && g.parents[k][i] in g.parents ==>
          g.parents[k][i] in rank && rank[g.parents[k][i]] < rank[k])
  }

  /** The map has no cycle of centers; without this the source's recursion
      does not end. */
  ghost predicate Acyclic(g: Galaxy)
  {
    exists rank :: Ranked(g, rank)
  }

  ghost function Rank(g: Galaxy): (rank: map<string, nat>)
    requires Acyclic(g)
    ensures Ranked(g, rank)
  {
    var rank :| Ranked(g, rank); rank
  }

  /** The termination measure of the recursions over a galaxy. */
  ghost function Height(g: Galaxy, obj: string): nat
    requires Acyclic(g)
  {
    if obj in g.parents then Rank(g)[obj] + 1 else 0
  }

  /** Every key has exactly one center, as in a well-formed orbit map. */
  ghost predicate SingleParent(g: Galaxy)
  {
    forall k :: k in g.parents ==> |g.parents[k]| == 1
  }

  /** `count_total_orbits(obj, galaxy, count)`. */
  function CountTotalOrbits(obj: string, g: Galaxy, count: nat): (r: nat)
    requires Acyclic(g)
    ensures obj !in g.parents ==> r == count
    ensures NonEmptyLists(g) ==> r >= count
    ensures NonEmptyLists(g) && obj in g.parents ==> r >= count + |g.parents[obj]|
    decreases Height(g, obj), 1
  {
    if obj !in g.parents then count
    else SumParents(obj, g, count + |g.parents[obj]|, 0)
  }

  /** `sum(count_total_orbits(orb, galaxy, count) for orb in galaxy[obj][k:])`. */
  function SumParents(obj: string, g: Galaxy, count: nat, k: nat): (r: nat)
    requires Acyclic(g) && obj in g.parents && k <= |g.parents[obj]|
    ensures NonEmptyLists(g) && k < |g.parents[obj]| ==> r >= count
    decreases Height(g, obj), 0, |g.parents[obj]| - k
  {
    if k == |g.parents[obj]| then 0
    else CountTotalOrbits(g.parents[obj][k], g, count) + SumParents(obj, g, count, k + 1)
  }

  /** `total_count(galaxy)`: the counts of the given keys, summed. Names
      that are not keys add nothing, and each key adds at least one. */
  function SumCounts(keys: seq<string>, g: Galaxy): (r: nat)
    requires Acyclic(g)
    ensures (forall i :: 0 <= i < |keys| ==> keys[i] !in g.parents) ==> r == 0
    ensures NonEmptyLists(g) && (forall i :: 0 <= i < |keys| ==> keys[i] in g.parents) ==> r >= |keys|
  {
    if keys == [] then 0
    else SumCounts(keys[..|keys| - 1], g) + CountTotalOrbits(keys[|keys| - 1], g, 0)
  }

  /** Every body orbits at least one object, so the total is at least the
      number of bodies; an empty map counts nothing. */
  function TotalCount(g: Galaxy): (r: nat)
    requires Acyclic(g)
    ensures WellFormed(g) && NonEmptyLists(g) ==> r >= |g.order|
    ensures g.parents == map[] ==> r == 0
  {
    SumCounts(g.order, g)
  }

  // ---------------------------------------------------------------------
  // travel_back
  // ---------------------------------------------------------------------

  /** The chain from `a` through the first center of each key, up to and
      excluding the first name that is not a key. */
  function Route(a: string, g: Galaxy): (r: seq<string>)
    requires Acyclic(g) && NonEmptyLists(g)
    ensures r == [] <==> a !in g.parents
    ensures r != [] ==> r[0] == a
    decreases Height(g, a)
  {
    if a !in g.parents then [] else [a] + Route(g.parents[a][0], g)
  }

  /** Every name on a route is a key, each is followed by its first center,
      the last one's first center is not a key, and no name outranks the
      start. */
  lemma {:induction false} RouteShape(a: string, g: Galaxy)
    requires Acyclic(g) && NonEmptyLists(g)
    ensures var r := Route(a, g);
      && (forall i :: 0 <= i < |r| ==> r[i] in g.parents)
      && (forall i :: 0 <= i < |r| - 1 ==> r[i + 1] == g.parents[r[i]][0])
      && (r != [] ==> g.parents[r[|r| - 1]][0] !in g.parents)
      && (forall i :: 0 <= i < |r| ==> Rank(g)[r[i]] <= Rank(g)[a])
    decreases Height(g, a)
  {
    if a in g.parents {
      var p := g.parents[a][0];
      RouteShape(p, g);
      var r, rest := Route(a, g), Route(p, g);
      assert r == [a] + rest;
      assert forall i :: 0 < i < |r| ==> r[i] == rest[i - 1];
    }
  }

  /** `travel_back(a, galaxy, route)`: appends the route from `a` to the
      list it is given and returns that list. */
  method TravelBack(a: string, g: Galaxy, route: seq<string>) returns (r: seq<string>)
    requires Acyclic(g) && NonEmptyLists(g)
    ensures r == route + Route(a, g)
    decreases Height(g, a)
  {
    if a in g.parents {
      var extended := route + [a];
      r := TravelBack(g.parents[a][0], g, extended);
    } else {
      r := route;
    }
  }

  /** The route from any point of a route is the rest of that route. */
  lemma {:induction false} RouteSuffix(a: string, g: Galaxy, m: nat)
    requires Acyclic(g) && NonEmptyLists(g) && m < |Route(a, g)|
    ensures Route(a, g)[m..] == Route(Route(a, g)[m], g)
    decreases m
  {
    if m > 0 {
      var r := Route(a, g);
      RouteSuffix(a, g, m - 1);
      var r' := Route(r[m - 1], g);
      assert r' == r[m - 1..];
      assert r'[1..] == Route(r'[1], g);
      assert r'[1..] == r[m..];
    }
  }

  /** Ranks drop strictly along a route, so no name occurs on it twice. */
  lemma RouteDecreasing(a: string, g: Galaxy)
    requires Acyclic(g) && NonEmptyLists(g)
    ensures forall i :: 0 <= i < |Route(a, g)| ==> Route(a, g)[i] in Rank(g)
    ensures forall i, j :: 0 <= i < j < |Route(a, g)| ==> Rank(g)[Route(a, g)[j]] < Rank(g)[Route(a, g)[i]]
    ensures forall i, j :: 0 <= i < j < |Route(a, g)| ==> Route(a, g)[i] != Route(a, g)[j]
  {
    var r := Route(a, g);
    RouteShape(a, g);
    forall i, j | 0 <= i < j < |r| ensures Rank(g)[r[j]] < Rank(g)[r[i]] {
      RouteShape(r[i + 1], g);
      RouteSuffix(a, g, i + 1);
      assert r[j] == Route(r[i + 1], g)[j - i - 1];
    }
  }

  /** `count_total_orbits(o, galaxy, c)` is `c` plus the length of the route
      from `o` when every key has one center. */
  lemma {:induction false} CountIsDepth(o: string, g: Galaxy, c: nat)
    requires Acyclic(g) && SingleParent(g)
    ensures NonEmptyLists(g)
    ensures CountTotalOrbits(o, g, c) == c + |Route(o, g)|
    decreases Height(g, o)
  {
    if o in g.parents {
      var p := g.parents[o][0];
      CountIsDepth(p, g, c + 1);
      assert SumParents(o, g, c + 1, 1) == 0;
    }
  }

  /** The route lengths of the given keys, summed. */
  function SumDepths(keys: seq<string>, g: Galaxy): nat
    requires Acyclic(g) && NonEmptyLists(g)
  {
    if keys == [] then 0
    else SumDepths(keys[..|keys| - 1], g) + |Route(keys[|keys| - 1], g)|
  }

  lemma SumDepthsSnoc(keys: seq<string>, k: string, g: Galaxy)
    requires Acyclic(g) && NonEmptyLists(g)
    ensures SumDepths(keys + [k], g) == SumDepths(keys, g) + |Route(k, g)|
  {
    assert (keys + [k])[..|keys|] == keys;
  }

  /** `total_count` adds up the number of objects each key orbits, directly
      or not, when every key has one center. */
  lemma {:induction false} TotalCountIsDepthSum(keys: seq<string>, g: Galaxy)
    requires Acyclic(g) && SingleParent(g)
    ensures NonEmptyLists(g)
    ensures SumCounts(keys, g) == SumDepths(keys, g)
  {
    if keys != [] {
      TotalCountIsDepthSum(keys[..|keys| - 1], g);
      CountIsDepth(keys[|keys| - 1], g, 0);
    }
  }

  // ---------------------------------------------------------------------
  // find_closest_intersection
  // ---------------------------------------------------------------------

  /** The first index from `i` on whose element also lies on `r2`. */
  function FirstShared(r1: seq<string>, r2: seq<string>, i: nat): (k: Option<nat>)
    requires i <= |r1|
    ensures k.None? <==> forall j :: i <= j < |r1| ==> r1[j] !in r2
    ensures k.Some? ==> i <= k.value < |r1| && r1[k.value] in r2
    ensures k.Some? ==> forall j :: i <= j < k.value ==> r1[j] !in r2
    decreases |r1| - i
  {
    if i == |r1| then None
    else if r1[i] in r2 then Some(i)
    else FirstShared(r1, r2, i + 1)
  }

  /** `find_closest_intersection(route1, route2)`: None stands for the
      IndexError when the routes share no name. */
  function FindClosestIntersection(r1: seq<string>, r2: seq<string>): (r: Option<int>)
    ensures r.None? <==> forall i :: 0 <= i < |r1| ==> r1[i] !in r2
    ensures r.Some? ==>
      exists i :: 0 <= i < |r1| && r1[i] in r2 && (forall j :: 0 <= j < i ==> r1[j] !in r2) &&
        r.value == i + IndexOf(r2, r1[i]) - 2
  {
    var first := FirstShared(r1, r2, 0);
    if first.None? then None
    else
      var x := r1[first.value];
      assert IndexOf(r1, x) == first.value by {
        var k := IndexOf(r1, x);
        assert k >= first.value;
      }
      Some(IndexOf(r1, x) + IndexOf(r2, x) - 2)
  }

  /** Once two routes share a name they run on together to the end. */
  lemma RoutesMeet(a: string, b: string, g: Galaxy, i: nat, j: nat)
    requires Acyclic(g) && NonEmptyLists(g)
    requires i < |Route(a, g)| && j < |Route(b, g)| && Route(a, g)[i] == Route(b, g)[j]
    ensures Route(a, g)[i..] == Route(b, g)[j..]
  {
    RouteSuffix(a, g, i);
    RouteSuffix(b, g, j);
  }

  /** Names strictly decrease in rank along the sequence. */
  ghost predicate RankDescending(r: seq<string>, rank: map<string, nat>)
  {
    && (forall i :: 0 <= i < |r| ==> r[i] in rank)
    && (forall i, j :: 0 <= i < j < |r| ==> rank[r[j]] < rank[r[i]])
  }

  /** The count is determined by where the routes first meet: if the name
      at position i of the first route is the first one shared, and it first
      appears at position j of the second, the result is i + j - 2. */
  lemma ClosestAt(r1: seq<string>, r2: seq<string>, i: nat, j: nat)
    requires i < |r1| && j < |r2| && r1[i] == r2[j]
    requires forall k :: 0 <= k < i ==> r1[k] !in r2
    requires forall k :: 0 <= k < j ==> r2[k] != r2[j]
    ensures FindClosestIntersection(r1, r2) == Some(i + j - 2)
  {
    var r := FindClosestIntersection(r1, r2);
    assert r1[i] in r2;
    var i' :| 0 <= i' < |r1| && r1[i'] in r2 && (forall k :: 0 <= k < i' ==> r1[k] !in r2) &&
      r.value == i' + IndexOf(r2, r1[i']) - 2;
    assert i' == i;
  }

  /** For two rank-descending sequences the first name of either that lies
      on the other is the same name, so the count is the same both ways. */
  lemma ClosestSymmetric(r1: seq<string>, r2: seq<string>, rank: map<string, nat>)
    requires RankDescending(r1, rank) && RankDescending(r2, rank)
    ensures FindClosestIntersection(r1, r2) == FindClosestIntersection(r2, r1)
  {
    var f1 := FirstShared(r1, r2, 0);
    if f1.None? {
      forall j | 0 <= j < |r2| ensures r2[j] !in r1 {
        forall i | 0 <= i < |r1| ensures r1[i] != r2[j] {
          assert r1[i] !in r2;
        }
      }
    } else {
      var i := f1.value;
      var x := r1[i];
      var j := IndexOf(r2, x);
      forall j' | 0 <= j' < j ensures r2[j'] !in r1 {
        forall i' | 0 <= i' < |r1| ensures r1[i'] != r2[j'] {
          if i' < i {
            assert r1[i'] !in r2;
          } else {
            assert rank[r1[i']] <= rank[x];
            assert rank[r2[j']] > rank[x];
          }
        }
      }
      forall i' | 0 <= i' < i ensures r1[i'] != r1[i] {
        assert rank[r1[i]] < rank[r1[i']];
      }
      ClosestAt(r1, r2, i, j);
      ClosestAt(r2, r1, j, i);
    }
  }

  /** Counting transfers from YOU's route to SAN's gives the same number as
      counting from SAN's route to YOU's. */
  lemma TransferSymmetric(a: string, b: string, g: Galaxy)
    requires Acyclic(g) && NonEmptyLists(g)
    ensures FindClosestIntersection(Route(a, g), Route(b, g)) == FindClosestIntersection(Route(b, g), Route(a, g))
  {
    RouteShape(a, g);
    RouteShape(b, g);
    RouteDecreasing(a, g);
    RouteDecreasing(b, g);
    ClosestSymmetric(Route(a, g), Route(b, g), Rank(g));
  }

  /** The count is the fewest transfers: for any name both routes pass
      through, at positions i and j, the result is at most i + j - 2. */
  lemma ClosestIsMin(a: string, b: string, g: Galaxy, i: nat, j: nat)
    requires Acyclic(g) && NonEmptyLists(g)
    requires i < |Route(a, g)| && j < |Route(b, g)| && Route(a, g)[i] == Route(b, g)[j]
    ensures var r := FindClosestIntersection(Route(a, g), Route(b, g));
      r.Some? && r.value <= i + j - 2
  {
    var r1, r2 := Route(a, g), Route(b, g);
    assert r1[i] in r2;
    var k := FirstShared(r1, r2, 0).value;
    var k2 := IndexOf(r2, r1[k]);
    RoutesMeet(a, b, g, k, k2);
    RouteDecreasing(b, g);
    assert r1[i] == r1[k..][i - k] == r2[k2..][i - k];
  }

  // ---------------------------------------------------------------------
  // The samples
  // ---------------------------------------------------------------------

  /** `SAMPLE_INPUT`, one string per line. */
  const SampleInput: seq<string> := ["COM)B", "B)C", "C)D", "D)E", "E)F", "B)G", "G)H", "D)I", "E)J", "J)K", "K)L"]

  /** The records of the sample lines, in line order. */
  const SampleOrbits: seq<Orbit> := [Orbit("COM", "B"), Orbit("B", "C"), Orbit("C", "D"), Orbit("D", "E"),
    Orbit("E", "F"), Orbit("B", "G"), Orbit("G", "H"), Orbit("D", "I"), Orbit("E", "J"), Orbit("J", "K"),
    Orbit("K", "L")]

  /** `sample_galaxy`: the eleven bodies in first-seen order, each with the
      one center it orbits. */
  const SampleGalaxy: Galaxy := Galaxy(["B", "C", "D", "E", "F", "G", "H", "I", "J", "K", "L"],
    map["B" := ["COM"], "C" := ["B"], "D" := ["C"], "E" := ["D"], "F" := ["E"], "G" := ["B"],
      "H" := ["G"], "I" := ["D"], "J" := ["E"], "K" := ["J"], "L" := ["K"]])

  /** The lines that write out the records, one per record. */
  function FormatAll(recs: seq<Orbit>): (lines: seq<string>)
    ensures |lines| == |recs|
  {
    seq(|recs|, i requires 0 <= i < |recs| => Format(recs[i]))
  }

  /** Writing records out and parsing the lines back gives the records. */
  lemma ParseAllFormat(recs: seq<Orbit>)
    requires forall i :: 0 <= i < |recs| ==> Printable(recs[i])
    ensures ParseAll(FormatAll(recs)) == Some(recs)
  {
    var lines := FormatAll(recs);
    forall i | 0 <= i < |recs| ensures ParseLine(lines[i]) == Some(recs[i]) {
      ParseFormat(recs[i]);
    }
    var r := ParseAll(lines);
    assert r.Some?;
    assert forall i :: 0 <= i < |recs| ==> r.value[i] == recs[i];
    assert r.value == recs;
  }

  /** The sample lines are the written-out sample records. */
  lemma SampleLines()
    ensures SampleInput == FormatAll(SampleOrbits)
  {
    assert Format(SampleOrbits[0]) == "COM)B";
    assert Format(SampleOrbits[1]) == "B)C";
    assert Format(SampleOrbits[2]) == "C)D";
    assert Format(SampleOrbits[3]) == "D)E";
    assert Format(SampleOrbits[4]) == "E)F";
    assert Format(SampleOrbits[5]) == "B)G";
    assert Format(SampleOrbits[6]) == "G)H";
    assert Format(SampleOrbits[7]) == "D)I";
    assert Format(SampleOrbits[8]) == "E)J";
    assert Format(SampleOrbits[9]) == "J)K";
    assert Format(SampleOrbits[10]) == "K)L";
  }

  /** Every sample line parses into its record. */
  lemma SampleParses()
    ensures ParseAll(SampleInput) == Some(SampleOrbits)
  {
    assert forall i :: 0 <= i < |SampleOrbits| ==> Printable(SampleOrbits[i]);
    ParseAllFormat(SampleOrbits);
    SampleLines();
  }

  lemma GalaxyOfSnoc(recs: seq<Orbit>, o: Orbit)
    ensures GalaxyOf(recs + [o]) == Append(GalaxyOf(recs), o.body, o.center)
  {
    assert (recs + [o])[..|recs|] == recs;
  }

  /** The first six sample records build the galaxy of their bodies. */
  lemma SampleBuilds6()
    ensures GalaxyOf(SampleOrbits[..6]) == Galaxy(["B", "C", "D", "E", "F", "G"],
        map["B" := ["COM"], "C" := ["B"], "D" := ["C"], "E" := ["D"], "F" := ["E"], "G" := ["B"]])
  {
    var r0: seq<Orbit> := [];
    var r1 := r0 + [Orbit("COM", "B")];
    var r2 := r1 + [Orbit("B", "C")];
    var r3 := r2 + [Orbit("C", "D")];
    var r4 := r3 + [Orbit("D", "E")];
    var r5 := r4 + [Orbit("E", "F")];
    var r6 := r5 + [Orbit("B", "G")];
    assert r6 == SampleOrbits[..6];
    GalaxyOfSnoc(r0, Orbit("COM", "B"));
    assert GalaxyOf(r1) == Galaxy(["B"], map["B" := ["COM"]]);
    GalaxyOfSnoc(r1, Orbit("B", "C"));
    assert GalaxyOf(r2) == Galaxy(["B", "C"], map["B" := ["COM"], "C" := ["B"]]);
    GalaxyOfSnoc(r2, Orbit("C", "D"));
    assert GalaxyOf(r3) == Galaxy(["B", "C", "D"], map["B" := ["COM"], "C" := ["B"], "D" := ["C"]]);
    GalaxyOfSnoc(r3, Orbit("D", "E"));
    assert GalaxyOf(r4) == Galaxy(["B", "C", "D", "E"], map["B" := ["COM"], "C" := ["B"], "D" := ["C"], "E" := ["D"]]);
    GalaxyOfSnoc(r4, Orbit("E", "F"));
    assert GalaxyOf(r5) == Galaxy(["B", "C", "D", "E", "F"], map["B" := ["COM"], "C" := ["B"], "D" := ["C"], "E" := ["D"], "F" := ["E"]]);
    GalaxyOfSnoc(r5, Orbit("B", "G"));
  }

  /** The first nine sample records build the galaxy of their bodies. */
  lemma SampleBuilds9()
    ensures GalaxyOf(SampleOrbits[..9]) == Galaxy(["B", "C", "D", "E", "F", "G", "H", "I", "J"],
        map["B" := ["COM"], "C" := ["B"], "D" := ["C"], "E" := ["D"], "F" := ["E"], "G" := ["B"], "H" := ["G"], "I" := ["D"], "J" := ["E"]])
  {
    var r6 := [Orbit("COM", "B"), Orbit("B", "C"), Orbit("C", "D"), Orbit("D", "E"), Orbit("E", "F"), Orbit("B", "G")];
    var r7 := r6 + [Orbit("G", "H")];
    var r8 := r7 + [Orbit("D", "I")];
    var r9 := r8 + [Orbit("E", "J")];
    assert r9 == SampleOrbits[..9];
    assert r6 == SampleOrbits[..6];
    SampleBuilds6();
    GalaxyOfSnoc(r6, Orbit("G", "H"));
    assert GalaxyOf(r7) == Galaxy(["B", "C", "D", "E", "F", "G", "H"], map["B" := ["COM"], "C" := ["B"], "D" := ["C"], "E" := ["D"], "F" := ["E"], "G" := ["B"], "H" := ["G"]]);
    GalaxyOfSnoc(r7, Orbit("D", "I"));
    assert GalaxyOf(r8) == Galaxy(["B", "C", "D", "E", "F", "G", "H", "I"], map["B" := ["COM"], "C" := ["B"], "D" := ["C"], "E" := ["D"], "F" := ["E"], "G" := ["B"], "H" := ["G"], "I" := ["D"]]);
    GalaxyOfSnoc(r8, Orbit("E", "J"));
  }

  /** The sample records build the sample galaxy. */
  lemma SampleBuilds()
    ensures GalaxyOf(SampleOrbits) == SampleGalaxy
  {
    var r9 := [Orbit("COM", "B"), Orbit("B", "C"), Orbit("C", "D"), Orbit("D", "E"), Orbit("E", "F"), Orbit("B", "G"), Orbit("G", "H"), Orbit("D", "I"), Orbit("E", "J")];
    var r10 := r9 + [Orbit("J", "K")];
    var r11 := r10 + [Orbit("K", "L")];
    assert r11 == SampleOrbits;
    assert r9 == SampleOrbits[..9];
    SampleBuilds9();
    GalaxyOfSnoc(r9, Orbit("J", "K"));
    assert GalaxyOf(r10) == Galaxy(["B", "C", "D", "E", "F", "G", "H", "I", "J", "K"], map["B" := ["COM"], "C" := ["B"], "D" := ["C"], "E" := ["D"], "F" := ["E"], "G" := ["B"], "H" := ["G"], "I" := ["D"], "J" := ["E"], "K" := ["J"]]);
    GalaxyOfSnoc(r10, Orbit("K", "L"));
  }

  /** Ranks that witness that the sample galaxy has no cycle: each body
      ranks one above the center it orbits, and `COM` is not a key. */
  const SampleRank: map<string, nat> := map["B" := 1, "C" := 2, "D" := 3, "E" := 4, "F" := 5, "G" := 2,
    "H" := 3, "I" := 4, "J" := 5, "K" := 6, "L" := 7]

  /** The sample galaxy's keys, the center each key orbits, and its rank. */
  lemma SampleEntries()
    ensures var p, rank := SampleGalaxy.parents, SampleRank;
      && p.Keys == {"B", "C", "D", "E", "F", "G", "H", "I", "J", "K", "L"} && "COM" !in p
      && p["B"] == ["COM"] && p["C"] == ["B"] && p["D"] == ["C"] && p["E"] == ["D"] && p["F"] == ["E"]
      && p["G"] == ["B"] && p["H"] == ["G"] && p["I"] == ["D"] && p["J"] == ["E"] && p["K"] == ["J"] && p["L"] == ["K"]
      && rank["B"] == 1 && rank["C"] == 2 && rank["D"] == 3 && rank["E"] == 4 && rank["F"] == 5
      && rank["G"] == 2 && rank["H"] == 3 && rank["I"] == 4 && rank["J"] == 5 && rank["K"] == 6 && rank["L"] == 7
  {
  }

  /** The sample galaxy has no cycle, and each body orbits one center. */
  lemma SampleShape()
    ensures Ranked(SampleGalaxy, SampleRank) && SingleParent(SampleGalaxy)
  {
    SampleEntries();
  }

  /** The number of steps from each sample body back to `COM`. */
  lemma SampleDepths()
    ensures Acyclic(SampleGalaxy) && NonEmptyLists(SampleGalaxy)
    ensures var g := SampleGalaxy;
      && |Route("B", g)| == 1 && |Route("C", g)| == 2 && |Route("D", g)| == 3 && |Route("E", g)| == 4
      && |Route("F", g)| == 5 && |Route("G", g)| == 2 && |Route("H", g)| == 3 && |Route("I", g)| == 4
      && |Route("J", g)| == 5 && |Route("K", g)| == 6 && |Route("L", g)| == 7
  {
    SampleEntries();
    SampleShape();
    var g := SampleGalaxy;
    assert |Route("COM", g)| == 0;
    assert |Route("B", g)| == 1;
    assert |Route("C", g)| == 2 && |Route("G", g)| == 2;
    assert |Route("D", g)| == 3 && |Route("H", g)| == 3;
    assert |Route("E", g)| == 4 && |Route("I", g)| == 4;
    assert |Route("F", g)| == 5 && |Route("J", g)| == 5;
    assert |Route("K", g)| == 6;
  }

  lemma SampleOrderSum()
    requires Acyclic(SampleGalaxy) && NonEmptyLists(SampleGalaxy)
    ensures var g := SampleGalaxy;
      SumDepths(g.order, g) == |Route("B", g)| + |Route("C", g)| + |Route("D", g)| + |Route("E", g)| + |Route("F", g)| + |Route("G", g)| + |Route("H", g)| + |Route("I", g)| + |Route("J", g)| + |Route("K", g)| + |Route("L", g)|
  {
    var g := SampleGalaxy;
    var k0: seq<string> := [];
    var k1 := k0 + ["B"];
    var k2 := k1 + ["C"];
    var k3 := k2 + ["D"];
    var k4 := k3 + ["E"];
    var k5 := k4 + ["F"];
    var k6 := k5 + ["G"];
    var k7 := k6 + ["H"];
    var k8 := k7 + ["I"];
    var k9 := k8 + ["J"];
    var k10 := k9 + ["K"];
    var k11 := k10 + ["L"];
    assert k11 == g.order;
    SumDepthsSnoc(k0, "B", g);
    SumDepthsSnoc(k1, "C", g);
    SumDepthsSnoc(k2, "D", g);
    SumDepthsSnoc(k3, "E", g);
    SumDepthsSnoc(k4, "F", g);
    SumDepthsSnoc(k5, "G", g);
    SumDepthsSnoc(k6, "H", g);
    SumDepthsSnoc(k7, "I", g);
    SumDepthsSnoc(k8, "J", g);
    SumDepthsSnoc(k9, "K", g);
    SumDepthsSnoc(k10, "L", g);
  }

  /** The depths of the sample bodies add up to 42. */
  lemma SampleDepthSum()
    ensures Acyclic(SampleGalaxy) && NonEmptyLists(SampleGalaxy)
    ensures SumDepths(SampleGalaxy.order, SampleGalaxy) == 42
  {
    SampleDepths();
    SampleOrderSum();
  }

  /** `assert total_count(sample_galaxy) == 42`, for whatever `parse_input`
      returns on the sample lines. */
  lemma SampleTotal(r: Option<Galaxy>)
    requires r.None? <==> ParseAll(SampleInput).None?
    requires r.Some? ==> r.value == GalaxyOf(ParseAll(SampleInput).value)
    ensures r == Some(SampleGalaxy) && Acyclic(SampleGalaxy)
    ensures TotalCount(SampleGalaxy) == 42
  {
    SampleParses();
    SampleBuilds();
    SampleShape();
    TotalCountIsDepthSum(SampleGalaxy.order, SampleGalaxy);
    SampleDepthSum();
  }

  /** `sample_galaxy` after `sample_galaxy["YOU"] = ["K"]` and
      `sample_galaxy["SAN"] = ["I"]`: two new keys at the end of the order. */
  const SampleGalaxyTwo: Galaxy :=
    Galaxy(SampleGalaxy.order + ["YOU", "SAN"], SampleGalaxy.parents["YOU" := ["K"]]["SAN" := ["I"]])

  const SampleRankTwo: map<string, nat> := SampleRank["YOU" := 7]["SAN" := 5]

  /** The centers of the edited sample galaxy's keys. */
  lemma SampleTwoCenters()
    ensures var p := SampleGalaxyTwo.parents;
      && p.Keys == {"B", "C", "D", "E", "F", "G", "H", "I", "J", "K", "L", "YOU", "SAN"} && "COM" !in p
      && p["B"] == ["COM"] && p["C"] == ["B"] && p["D"] == ["C"] && p["E"] == ["D"] && p["F"] == ["E"]
      && p["G"] == ["B"] && p["H"] == ["G"] && p["I"] == ["D"] && p["J"] == ["E"] && p["K"] == ["J"] && p["L"] == ["K"]
      && p["YOU"] == ["K"] && p["SAN"] == ["I"]
  {
    SampleEntries();
  }

  /** The ranks witness that the edited sample galaxy has no cycle. */
  lemma SampleTwoShape()
    ensures Ranked(SampleGalaxyTwo, SampleRankTwo)
  {
    SampleEntries();
    SampleTwoCenters();
  }

  /** The edited sample has no cycle and no empty list. */
  lemma SampleTwoAcyclic()
    ensures Acyclic(SampleGalaxyTwo) && NonEmptyLists(SampleGalaxyTwo)
  {
    assert NonEmptyLists(SampleGalaxyTwo) by { SampleTwoCenters(); }
    SampleTwoShape();
  }

  /** The route from D, shared by YOU and SAN in the edited sample. */
  lemma SampleRouteD()
    ensures Acyclic(SampleGalaxyTwo) && NonEmptyLists(SampleGalaxyTwo)
    ensures Route("D", SampleGalaxyTwo) == ["D", "C", "B"]
  {
    SampleTwoCenters();
    SampleTwoAcyclic();
    var g := SampleGalaxyTwo;
    assert Route("COM", g) == [];
    assert Route("B", g) == ["B"];
    assert Route("C", g) == ["C", "B"];
  }

  /** The route `travel_back` builds for YOU in the edited sample. */
  lemma SampleRouteYou()
    ensures Acyclic(SampleGalaxyTwo) && NonEmptyLists(SampleGalaxyTwo)
    ensures Route("YOU", SampleGalaxyTwo) == ["YOU", "K", "J", "E", "D", "C", "B"]
  {
    SampleTwoCenters();
    SampleRouteD();
    var g := SampleGalaxyTwo;
    var r := ["D", "C", "B"];
    r := ["E"] + r;
    assert Route("E", g) == r;
    r := ["J"] + r;
    assert Route("J", g) == r;
    r := ["K"] + r;
    assert Route("K", g) == r;
    r := ["YOU"] + r;
    assert Route("YOU", g) == r;
  }

  /** The route `travel_back` builds for SAN in the edited sample. */
  lemma SampleRouteSan()
    ensures Acyclic(SampleGalaxyTwo) && NonEmptyLists(SampleGalaxyTwo)
    ensures Route("SAN", SampleGalaxyTwo) == ["SAN", "I", "D", "C", "B"]
  {
    SampleTwoCenters();
    SampleRouteD();
    var g := SampleGalaxyTwo;
    assert Route("I", g) == ["I", "D", "C", "B"];
  }

  /** The sample's answer: 4 transfers take YOU from K to I, which SAN
      orbits. */
  lemma SampleTransfers()
    ensures Acyclic(SampleGalaxyTwo) && NonEmptyLists(SampleGalaxyTwo)
    ensures FindClosestIntersection(Route("YOU", SampleGalaxyTwo), Route("SAN", SampleGalaxyTwo)) == Some(4)
  {
    SampleRouteYou();
    SampleRouteSan();
    var you, san := Route("YOU", SampleGalaxyTwo), Route("SAN", SampleGalaxyTwo);
    assert you[4] == san[2] == "D";
    assert forall k :: 0 <= k < 4 ==> you[k] !in san;
    ClosestAt(you, san, 4, 2);
  }
}
