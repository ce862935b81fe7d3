/** Command-line reporting of meshes and smoothing results, and the choice of
    mesh reader and writer by file extension. Console output is returned as
    text (or as pieces of text and unformatted numbers) instead of being
    written to the standard output. */
module Reporting {
  import opened Wrappers
  import opened Strings
  import opened Meshes
  import opened Sequences

  // ---------------------------------------------------------------------
  // One entry of the element statistics: "<count> <n-gon name>[s][, ]"
  // ---------------------------------------------------------------------

  /** The name of a polygon with the given node count: six counts have a
      proper name; any other count is written in decimal before "-gon", so
      the count can be read back from the name. */
  function PolygonName(numberOfNodes: nat): (r: string)
    ensures numberOfNodes !in {3, 4, 5, 6, 8, 12} ==>
      && |r| > 4 && r[|r| - 4..] == "-gon" && r[..|r| - 4] == Decimal(numberOfNodes)
      && DecimalValue(r[..|r| - 4]) == numberOfNodes
  {
    match numberOfNodes
    case 3 => "triangle"
    case 4 => "quadrilateral"
    case 5 => "pentagon"
    case 6 => "hexagon"
    case 8 => "octagon"
    case 12 => "dodecagon"
    case _ =>
      DecimalRoundTrip(numberOfNodes);
      Decimal(numberOfNodes) + "-gon"
  }

  function Plural(count: nat): string
  {
    if count == 1 then "" else "s"
  }

  function Separator(isLast: bool): string
  {
    if isLast then "" else ", "
  }

  predicate EndsWithSeparator(s: string)
  {
    |s| >= 2 && s[|s| - 2] == ',' && s[|s| - 1] == ' '
  }

  /** Every polygon name is at least five characters long and ends in a
      lower-case letter other than 's', so neither a plural 's' nor a ", "
      separator can be mistaken for part of it. */
  lemma PolygonNameShape(numberOfNodes: nat)
    ensures var name := PolygonName(numberOfNodes);
      && |name| >= 5
      && name[|name| - 1] in {'e', 'l', 'n'}
      && ' ' !in name && ',' !in name
  {
    var name := PolygonName(numberOfNodes);
    if numberOfNodes !in {3, 4, 5, 6, 8, 12} {
      DecimalHasNo(' ', numberOfNodes);
      DecimalHasNo(',', numberOfNodes);
      assert name == Decimal(numberOfNodes) + "-gon";
    }
  }

  /** A name that an appended 's' or ", " cannot be mistaken for part of:
      at least two characters, not ending in 's' or a space. */
  predicate NameShaped(name: string)
  {
    |name| >= 2 && name[|name| - 1] != 's' && name[|name| - 1] != ' '
  }

  /** No polygon name ends in 's' or a space. */
  lemma PolygonNameEnding(numberOfNodes: nat)
    ensures NameShaped(PolygonName(numberOfNodes))
  {
    PolygonNameShape(numberOfNodes);
  }

  /** A generic "<n>-gon" name has '-' four characters from its end; none of
      the six named polygons has. */
  lemma NameDashPosition(n: nat)
    ensures |PolygonName(n)| >= 5
    ensures PolygonName(n)[|PolygonName(n)| - 4] == '-' <==> n !in {3, 4, 5, 6, 8, 12}
  {
  }

  /** Distinct node counts get distinct names: the six named polygons differ
      from each other and from every "<n>-gon", and "<n>-gon" determines n. */
  lemma PolygonNameInjective(a: nat, b: nat)
    requires PolygonName(a) == PolygonName(b)
    ensures a == b
  {
    var special := {3, 4, 5, 6, 8, 12};
    var name := PolygonName(a);
    NameDashPosition(a);
    NameDashPosition(b);
    if a !in special && b !in special {
      assert Decimal(a) == name[..|name| - 4] == Decimal(b);
      DecimalInjective(a, b);
    }
  }

  /** `r` is laid out as an entry for a polygon called `name`: the count
      `d` and a space, then the name, an 's' exactly when the count is not
      one, and ", " exactly when the entry is not the last. */
  predicate EntryLayout(r: string, d: string, name: string, count: nat, isLast: bool)
  {
    && |r| == |d| + 1 + |name| + |Plural(count)| + |Separator(isLast)|
    && |r| > |d| + 1 && r[..|d|] == d && r[|d|] == ' '
    && (EndsWithSeparator(r) <==> !isLast)
    && (r[|r| - 1 - |Separator(isLast)|] == 's' <==> count != 1)
    && r[|d| + 1..|r| - |Plural(count)| - |Separator(isLast)|] == name
  }

  /** Every name that does not end in 's' or a space gives an entry with
      that layout. */
  lemma EntryText(d: string, name: string, count: nat, isLast: bool)
    requires NameShaped(name)
    ensures EntryLayout(d + [' '] + (name + Plural(count) + Separator(isLast)), d, name, count, isLast)
  {
    var plural, sep := Plural(count), Separator(isLast);
    var t := name + plural + sep;
    var body := name + plural;
    assert body[|body| - 1] == if count == 1 then name[|name| - 1] else 's';
    assert t[|t| - 1 - |sep|] == body[|body| - 1];
    Joined(d, ' ', t, |sep|);
    Middle(d, ' ', name, plural, sep);
  }

  /** The layout determines the count's digits and the last flag, and with
      them the name. */
  lemma LayoutInjective(r: string, d: string, name: string, count: nat, isLast: bool,
                        d': string, name': string, count': nat, isLast': bool)
    requires ' ' !in d && ' ' !in d'
    requires EntryLayout(r, d, name, count, isLast) && EntryLayout(r, d', name', count', isLast')
    ensures d == d' && isLast == isLast'
    ensures count == count' ==> name == name'
  {
    SeparatedPrefix(' ', r, d, d');
  }

  /** The text `printPolygonInformation` writes for one histogram entry: the
      count and a space, then the polygon's name, an 's' exactly when the
      count is not one, and ", " exactly when the entry is not the last. */
  function PolygonInformation(numberOfNodes: nat, count: nat, isLast: bool): (r: string)
    ensures EntryLayout(r, Decimal(count), PolygonName(numberOfNodes), count, isLast)
  {
    PolygonNameEnding(numberOfNodes);
    EntryText(Decimal(count), PolygonName(numberOfNodes), count, isLast);
    Decimal(count) + [' '] + (PolygonName(numberOfNodes) + Plural(count) + Separator(isLast))
  }

  /** An entry's text determines the node count, the count and whether it
      is the last entry. */
  lemma PolygonInformationInjective(n: nat, c: nat, last: bool, n': nat, c': nat, last': bool)
    ensures PolygonInformation(n, c, last) == PolygonInformation(n', c', last') <==> n == n' && c == c' && last == last'
  {
    if PolygonInformation(n, c, last) == PolygonInformation(n', c', last') {
      DecimalHasNo(' ', c);
      DecimalHasNo(' ', c');
      LayoutInjective(PolygonInformation(n, c, last), Decimal(c), PolygonName(n), c, last, Decimal(c'), PolygonName(n'), c', last');
      DecimalInjective(c, c');
      PolygonNameInjective(n, n');
    }
  }

  // ---------------------------------------------------------------------
  // The node-count histogram and its ascending traversal
  // ---------------------------------------------------------------------

  /** The histogram `printElementStatistics` builds: for each node count, how
      many polygons have it. Built one polygon at a time, a missing key
      counting as zero. */
  function Histogram(sizes: seq<nat>): map<nat, nat>
  {
    if sizes == [] then map[]
    else
      var h := Histogram(sizes[..|sizes| - 1]);
      var k := sizes[|sizes| - 1];
      h[k := (if k in h then h[k] else 0) + 1]
  }

  /** Exactly the node counts that occur are keys, each mapped to the number
      of polygons with that node count, which is therefore never zero. */
  lemma {:induction false} HistogramCounts(sizes: seq<nat>)
    ensures forall k :: k in Histogram(sizes) <==> k in multiset(sizes)
    ensures forall k :: k in Histogram(sizes) ==> Histogram(sizes)[k] == multiset(sizes)[k] > 0
  {
    if sizes != [] {
      var init := sizes[..|sizes| - 1];
      HistogramCounts(init);
      assert sizes == init + [sizes[|sizes| - 1]];
      assert multiset(sizes) == multiset(init) + multiset{sizes[|sizes| - 1]};
    }
  }

  predicate IsLeast(m: nat, keys: set<nat>)
  {
    m in keys && forall k :: k in keys ==> m <= k
  }

  predicate IsGreatest(m: nat, keys: set<nat>)
  {
    m in keys && forall k :: k in keys ==> k <= m
  }

  lemma {:induction false} LeastExists(keys: set<nat>)
    requires keys != {}
    ensures exists m :: IsLeast(m, keys)
  {
    var x :| x in keys;
    if keys == {x} {
      assert IsLeast(x, keys);
    } else {
      LeastExists(keys - {x});
      var m :| IsLeast(m, keys - {x});
      var least := if x < m then x else m;
      forall k | k in keys
        ensures least <= k
      {
        if k != x {
          assert k in keys - {x};
        }
      }
      assert IsLeast(least, keys);
    }
  }

  lemma {:induction false} GreatestExists(keys: set<nat>)
    requires keys != {}
    ensures exists m :: IsGreatest(m, keys)
  {
    var x :| x in keys;
    if keys == {x} {
      assert IsGreatest(x, keys);
    } else {
      GreatestExists(keys - {x});
      var m :| IsGreatest(m, keys - {x});
      var greatest := if m < x then x else m;
      forall k | k in keys
        ensures k <= greatest
      {
        if k != x {
          assert k in keys - {x};
        }
      }
      assert IsGreatest(greatest, keys);
    }
  }

  ghost function Least(keys: set<nat>): (m: nat)
    requires keys != {}
    ensures m in keys && forall k :: k in keys ==> m <= k
  {
    LeastExists(keys);
    var m :| IsLeast(m, keys); m
  }

  ghost function Greatest(keys: set<nat>): (m: nat)
    requires keys != {}
    ensures m in keys && forall k :: k in keys ==> k <= m
  {
    GreatestExists(keys);
    var m :| IsGreatest(m, keys); m
  }

  /** The keys in the order a `std::map` visits them: ascending. */
  ghost function Ascending(keys: set<nat>): seq<nat>
    decreases keys
  {
    if keys == {} then []
    else
      var m := Least(keys);
      [m] + Ascending(keys - {m})
  }

  /** The traversal visits each key exactly once, in strictly ascending order. */
  lemma {:induction false} AscendingOrder(keys: set<nat>)
    ensures |Ascending(keys)| == |keys|
    ensures forall k :: k in Ascending(keys) <==> k in keys
    ensures forall i, j :: 0 <= i < j < |Ascending(keys)| ==> Ascending(keys)[i] < Ascending(keys)[j]
    decreases keys
  {
    if keys != {} {
      var m := Least(keys);
      AscendingOrder(keys - {m});
      var r := Ascending(keys);
      assert r == [m] + Ascending(keys - {m});
      forall i, j | 0 <= i < j < |r|
        ensures r[i] < r[j]
      {
        if i == 0 {
          assert r[j] in keys - {m};
        } else {
          assert r[i] == Ascending(keys - {m})[i - 1];
        }
      }
    }
  }

  /** The last key of the ascending traversal is the greatest one, the key
      `rbegin()` of the map points at. */
  lemma AscendingLast(keys: set<nat>)
    requires keys != {}
    ensures Ascending(keys)[|Ascending(keys)| - 1] == Greatest(keys)
  {
    AscendingOrder(keys);
    var r := Ascending(keys);
    var g := Greatest(keys);
    assert g in r;
    var j :| 0 <= j < |r| && r[j] == g;
    assert r[|r| - 1] in keys;
  }

  // ---------------------------------------------------------------------
  // The element statistics line
  // ---------------------------------------------------------------------

  /** One printed histogram entry. */
  datatype Entry = Entry(numberOfNodes: nat, count: nat, isLast: bool)

  /** The entries for the given keys; an entry is last when its key is
      `lastKey`, the greatest key of the map. */
  function EntriesOf(h: map<nat, nat>, keys: seq<nat>, lastKey: nat): (es: seq<Entry>)
    requires forall i :: 0 <= i < |keys| ==> keys[i] in h
    ensures |es| == |keys|
    ensures forall i :: 0 <= i < |keys| ==> es[i] == Entry(keys[i], h[keys[i]], keys[i] == lastKey)
  {
    if keys == [] then []
    else
      var k := keys[|keys| - 1];
      EntriesOf(h, keys[..|keys| - 1], lastKey) + [Entry(k, h[k], k == lastKey)]
  }

  /** The entries of the histogram in the order they are printed. */
  ghost function Entries(h: map<nat, nat>): seq<Entry>
  {
    if h == map[] then []
    else
      AscendingOrder(h.Keys);
      EntriesOf(h, Ascending(h.Keys), Greatest(h.Keys))
  }

  function RenderEntries(es: seq<Entry>): string
  {
    if es == [] then ""
    else
      var e := es[|es| - 1];
      RenderEntries(es[..|es| - 1]) + PolygonInformation(e.numberOfNodes, e.count, e.isLast)
  }

  /** The line `printElementStatistics` writes for polygons with the given
      node counts. */
  ghost function StatisticsLine(sizes: seq<nat>): string
  {
    "  elements: " + RenderEntries(Entries(Histogram(sizes))) + "\n"
  }

  /** Position `i` of the printed entries holds the i-th key in ascending
      order with its count, marked last exactly when it is the final one. */
  lemma EntryAt(h: map<nat, nat>, i: nat)
    requires h != map[]
    requires i < |Entries(h)|
    ensures |Entries(h)| == |Ascending(h.Keys)|
    ensures Entries(h)[i].numberOfNodes == Ascending(h.Keys)[i]
    ensures Entries(h)[i].numberOfNodes in h && Entries(h)[i].count == h[Entries(h)[i].numberOfNodes]
    ensures Entries(h)[i].isLast <==> i == |Entries(h)| - 1
  {
    AscendingOrder(h.Keys);
    AscendingLast(h.Keys);
    var keys := Ascending(h.Keys);
    if i < |keys| - 1 {
      assert keys[i] < keys[|keys| - 1];
    }
  }

  /** The printed entries are in strictly ascending node-count order and only
      the final one is marked last, so only it goes without a ", " separator. */
  lemma EntriesAscending(h: map<nat, nat>)
    ensures var es := Entries(h);
      && (forall i, j :: 0 <= i < j < |es| ==> es[i].numberOfNodes < es[j].numberOfNodes)
      && (forall i :: 0 <= i < |es| ==> (es[i].isLast <==> i == |es| - 1))
  {
    if h != map[] {
      AscendingOrder(h.Keys);
      forall i | 0 <= i < |Entries(h)| {
        EntryAt(h, i);
      }
    }
  }

  /** Each printed count is the number of polygons with that node count and is
      positive, and every node count that occurs has an entry. */
  lemma EntriesCount(sizes: seq<nat>)
    ensures var es := Entries(Histogram(sizes));
      && (forall i :: 0 <= i < |es| ==> es[i].count == multiset(sizes)[es[i].numberOfNodes] > 0)
      && (forall n :: n in multiset(sizes) <==> exists i :: 0 <= i < |es| && es[i].numberOfNodes == n)
  {
    var h := Histogram(sizes);
    HistogramCounts(sizes);
    var es := Entries(h);
    if h != map[] {
      AscendingOrder(h.Keys);
      var keys := Ascending(h.Keys);
      forall i | 0 <= i < |es|
        ensures es[i].numberOfNodes == keys[i] && es[i].count == h[keys[i]]
      {
        EntryAt(h, i);
      }
      forall n | n in multiset(sizes)
        ensures exists i :: 0 <= i < |es| && es[i].numberOfNodes == n
      {
        assert n in keys;
        var i :| 0 <= i < |keys| && keys[i] == n;
        assert es[i].numberOfNodes == n;
      }
    }
  }

  /** The sum of the printed counts. */
  function TotalCount(es: seq<Entry>): nat
  {
    if es == [] then 0 else TotalCount(es[..|es| - 1]) + es[|es| - 1].count
  }

  /** Sum of the multiplicities in `m` of the listed keys. */
  function SumOver(keys: seq<nat>, m: multiset<nat>): nat
  {
    if keys == [] then 0 else SumOver(keys[..|keys| - 1], m) + m[keys[|keys| - 1]]
  }

  lemma {:induction false} SumOverEmpty(keys: seq<nat>)
    ensures SumOver(keys, multiset{}) == 0
  {
    if keys != [] {
      SumOverEmpty(keys[..|keys| - 1]);
    }
  }

  lemma {:induction false} SumOverAddOne(keys: seq<nat>, m: multiset<nat>, x: nat)
    requires forall i, j :: 0 <= i < j < |keys| ==> keys[i] != keys[j]
    ensures SumOver(keys, m + multiset{x}) == SumOver(keys, m) + (if x in keys then 1 else 0)
  {
    if keys != [] {
      var init := keys[..|keys| - 1];
      SumOverAddOne(init, m, x);
      assert keys == init + [keys[|keys| - 1]];
      assert x in keys <==> x in init || x == keys[|keys| - 1];
      if x == keys[|keys| - 1] {
        assert x !in init;
      }
    }
  }

  /** When the keys are distinct and cover every element of `s`, their
      multiplicities add up to the length of `s`. */
  lemma {:induction false} SumOverCovers(keys: seq<nat>, s: seq<nat>)
    requires forall i, j :: 0 <= i < j < |keys| ==> keys[i] != keys[j]
    requires forall x :: x in s ==> x in keys
    ensures SumOver(keys, multiset(s)) == |s|
  {
    if s == [] {
      SumOverEmpty(keys);
    } else {
      var init := s[..|s| - 1];
      var x := s[|s| - 1];
      assert s == init + [x];
      assert multiset(s) == multiset(init) + multiset{x};
      SumOverCovers(keys, init);
      SumOverAddOne(keys, multiset(init), x);
    }
  }

  lemma {:induction false} TotalCountOf(h: map<nat, nat>, keys: seq<nat>, lastKey: nat, m: multiset<nat>)
    requires forall i :: 0 <= i < |keys| ==> keys[i] in h && h[keys[i]] == m[keys[i]]
    ensures TotalCount(EntriesOf(h, keys, lastKey)) == SumOver(keys, m)
  {
    if keys != [] {
      var init := keys[..|keys| - 1];
      TotalCountOf(h, init, lastKey, m);
      assert EntriesOf(h, keys, lastKey)[..|keys| - 1] == EntriesOf(h, init, lastKey);
    }
  }

  /** The printed counts account for every polygon exactly once. */
  lemma EntriesTotal(sizes: seq<nat>)
    ensures TotalCount(Entries(Histogram(sizes))) == |sizes|
  {
    var h := Histogram(sizes);
    HistogramCounts(sizes);
    if h != map[] {
      AscendingOrder(h.Keys);
      var keys := Ascending(h.Keys);
      forall i | 0 <= i < |keys|
        ensures keys[i] in h && h[keys[i]] == multiset(sizes)[keys[i]]
      {
        assert keys[i] in keys;
      }
      TotalCountOf(h, keys, Greatest(h.Keys), multiset(sizes));
      forall x | x in sizes
        ensures x in keys
      {
        assert x in multiset(sizes);
      }
      SumOverCovers(keys, sizes);
    }
  }

  /** The counting loop of `printElementStatistics`: one increment per
      polygon, a missing key counting as zero. */
  method CountPolygonsByNodeCount(mesh: PolygonalMesh) returns (numberOfNodesToCount: map<nat, nat>)
    ensures numberOfNodesToCount == Histogram(NodeCounts(mesh))
  {
    var polygons := mesh.polygons;
    ghost var sizes := NodeCounts(mesh);
    numberOfNodesToCount := map[];
    for i := 0 to |polygons|
      invariant numberOfNodesToCount == Histogram(sizes[..i])
    {
      var numberOfNodes := |polygons[i]|;
      var count := if numberOfNodes in numberOfNodesToCount then numberOfNodesToCount[numberOfNodes] else 0;
      numberOfNodesToCount := numberOfNodesToCount[numberOfNodes := count + 1];
      assert sizes[..i + 1][..i] == sizes[..i];
    }
    assert sizes[..|polygons|] == sizes;
  }

  /** What `printElementStatistics` has written after the header and the
      entries for `keys`. */
  function WrittenSoFar(h: map<nat, nat>, keys: seq<nat>, lastKey: nat): string
    requires forall i :: 0 <= i < |keys| ==> keys[i] in h
  {
    if keys == [] then "  elements: "
    else
      var k := keys[|keys| - 1];
      WrittenSoFar(h, keys[..|keys| - 1], lastKey) + PolygonInformation(k, h[k], k == lastKey)
  }

  lemma WrittenStep(h: map<nat, nat>, keys: seq<nat>, k: nat, lastKey: nat)
    requires forall i :: 0 <= i < |keys| ==> keys[i] in h
    requires k in h
    ensures forall i :: 0 <= i < |keys + [k]| ==> (keys + [k])[i] in h
    ensures WrittenSoFar(h, keys + [k], lastKey) == WrittenSoFar(h, keys, lastKey) + PolygonInformation(k, h[k], k == lastKey)
  {
    assert (keys + [k])[..|keys|] == keys;
  }

  lemma {:induction false} WrittenSoFarIs(h: map<nat, nat>, keys: seq<nat>, lastKey: nat)
    requires forall i :: 0 <= i < |keys| ==> keys[i] in h
    ensures WrittenSoFar(h, keys, lastKey) == "  elements: " + RenderEntries(EntriesOf(h, keys, lastKey))
  {
    if keys != [] {
      var init := keys[..|keys| - 1];
      WrittenSoFarIs(h, init, lastKey);
      var k := keys[|keys| - 1];
      var e := Entry(k, h[k], k == lastKey);
      DropLast(EntriesOf(h, init, lastKey), e);
      ConcatAssoc("  elements: ", RenderEntries(EntriesOf(h, init, lastKey)), PolygonInformation(k, h[k], k == lastKey));
    }
  }

  /** Splitting off the least remaining key advances the ascending traversal
      by that key. */
  lemma AscendingStep(keys: set<nat>, k: nat)
    requires IsLeast(k, keys)
    ensures Ascending(keys) == [k] + Ascending(keys - {k})
  {
    assert k == Least(keys);
  }

  /** Once every key has been visited, the written text is the statistics
      line. */
  lemma StatisticsLineIs(sizes: seq<nat>, h: map<nat, nat>, lastKey: nat, visited: seq<nat>)
    requires h == Histogram(sizes)
    requires h != map[] ==> lastKey in h && forall k :: k in h ==> k <= lastKey
    requires forall i :: 0 <= i < |visited| ==> visited[i] in h
    requires Ascending(h.Keys) == visited + Ascending({})
    ensures WrittenSoFar(h, visited, lastKey) + "\n" == StatisticsLine(sizes)
  {
    assert visited + Ascending({}) == visited;
    WrittenSoFarIs(h, visited, lastKey);
    if h != map[] {
      assert lastKey == Greatest(h.Keys);
    }
  }

  lemma AscendingAdvance(keys: set<nat>, visited: seq<nat>, remaining: set<nat>, k: nat)
    requires Ascending(keys) == visited + Ascending(remaining)
    requires IsLeast(k, remaining)
    ensures Ascending(keys) == (visited + [k]) + Ascending(remaining - {k})
  {
    AscendingStep(remaining, k);
  }

  /** `printElementStatistics`: count the polygons per node count in a map,
      then write one entry per key in ascending order, the entry for the
      greatest key without a trailing separator. */
  method PrintElementStatistics(mesh: PolygonalMesh) returns (line: string)
    ensures line == StatisticsLine(NodeCounts(mesh))
  {
    var h := CountPolygonsByNodeCount(mesh);
    line := "  elements: ";
    var lastKey: nat := 0;
    if h.Keys != {} {
      GreatestExists(h.Keys);
      lastKey :| IsGreatest(lastKey, h.Keys);
    }
    var remaining := h.Keys;
    ghost var visited: seq<nat> := [];
    while remaining != {}
      invariant remaining <= h.Keys
      invariant forall i :: 0 <= i < |visited| ==> visited[i] in h
      invariant Ascending(h.Keys) == visited + Ascending(remaining)
      invariant line == WrittenSoFar(h, visited, lastKey)
      decreases remaining
    {
      LeastExists(remaining);
      var numberOfNodes :| IsLeast(numberOfNodes, remaining);
      AscendingAdvance(h.Keys, visited, remaining, numberOfNodes);
      var isLastEntry := numberOfNodes == lastKey;
      line := line + PolygonInformation(numberOfNodes, h[numberOfNodes], isLastEntry);
      WrittenStep(h, visited, numberOfNodes, lastKey);
      visited := visited + [numberOfNodes];
      remaining := remaining - {numberOfNodes};
    }
    StatisticsLineIs(NodeCounts(mesh), h, lastKey, visited);
    line := line + "\n";
  }

  // ---------------------------------------------------------------------
  // Mesh quality and smoothing results
  // ---------------------------------------------------------------------

  /** A piece of console output: text, or a floating-point value whose
      fixed-precision formatting is not modelled. */
  datatype Piece = Text(text: string) | Number(value: real)

  /** The header of a quality line: a capital "M" when there is no
      description prefix, otherwise the prefix and a lower-case "m". */
  function QualityHeader(descriptionPrefix: string): (r: string)
    ensures descriptionPrefix == [] ==> r == "Mesh quality: "
    ensures descriptionPrefix != [] ==> r == descriptionPrefix + "mesh quality: "
  {
    var prefix := if descriptionPrefix == [] then "M" else descriptionPrefix + "m";
    prefix + "esh quality: "
  }

  /** The quality line `printMeshQuality` writes. A negative qmin yields the
      number of invalid elements when it is known, otherwise "invalid mesh",
      and no value at all; otherwise qmin, qmin* if present, and qmean. */
  function MeshQualityLine(quality: MeshQuality, descriptionPrefix: string): (r: seq<Piece>)
    ensures |r| >= 2 && r[0] == Text(QualityHeader(descriptionPrefix))
    ensures (exists i :: 0 <= i < |r| && r[i].Number?) <==> quality.qMin >= 0.0
    ensures quality.qMin < 0.0 && quality.numberOfInvalidElements.Some? ==>
      r == [r[0], Text(Decimal(quality.numberOfInvalidElements.value) + " invalid elements\n")]
    ensures quality.qMin < 0.0 && quality.numberOfInvalidElements.None? ==>
      r == [r[0], Text("invalid mesh\n")]
    ensures quality.qMin >= 0.0 ==> |r| >= 6
    ensures quality.qMin >= 0.0 ==> r[1..3] == [Text("qmin="), Number(quality.qMin)]
    ensures quality.qMin >= 0.0 ==> r[|r| - 3..] == [Text(", qmean="), Number(quality.qMean), Text("\n")]
    ensures quality.qMin >= 0.0 ==> (Text(", qmin*=") in r <==> quality.qMinStar.Some?)
    ensures quality.qMin >= 0.0 ==>
      r[3..|r| - 3] == match quality.qMinStar
        case Some(v) => [Text(", qmin*="), Number(v)]
        case None => []
  {
    var header := Text(QualityHeader(descriptionPrefix));
    if quality.qMin < 0.0 then
      match quality.numberOfInvalidElements
      case Some(count) => [header, Text(Decimal(count) + " invalid elements\n")]
      case None => [header, Text("invalid mesh\n")]
    else
      var star := match quality.qMinStar
        case Some(qMinStar) => [Text(", qmin*="), Number(qMinStar)]
        case None => [];
      var r := [header, Text("qmin="), Number(quality.qMin)] + star
        + [Text(", qmean="), Number(quality.qMean), Text("\n")];
      assert r[2].Number?;
      r
  }

  /** The iteration line: one count for smart Laplace, the simultaneous and
      the sequential count separated by '/' for GETMe. */
  function IterationsLine(iterations: Iterations): (r: string)
    ensures |r| > 15 && r[..14] == "  iterations: " && r[|r| - 1] == '\n'
    ensures ('/' in r[14..|r| - 1]) <==> iterations.GetmeIterations?
    ensures r[14..|r| - 1] == match iterations
      case SmartLaplaceIterations(n) => Decimal(n)
      case GetmeIterations(simultaneous, sequential) => Decimal(simultaneous) + "/" + Decimal(sequential)
  {
    DecimalHasNo('/', if iterations.SmartLaplaceIterations? then iterations.iterations else iterations.simultaneous);
    var counts := match iterations
      case SmartLaplaceIterations(n) => Decimal(n)
      case GetmeIterations(simultaneous, sequential) => Decimal(simultaneous) + "/" + Decimal(sequential);
    var r := "  iterations: " + counts + "\n";
    assert r[14..|r| - 1] == counts;
    r
  }

  /** The iteration counts can be read back from the iteration line. */
  lemma IterationsLineInjective(a: Iterations, b: Iterations)
    requires IterationsLine(a) == IterationsLine(b)
    ensures a == b
  {
    var ra, rb := IterationsLine(a), IterationsLine(b);
    var ca, cb := ra[14..|ra| - 1], rb[14..|rb| - 1];
    assert ca == cb;
    match (a, b)
    case (SmartLaplaceIterations(n), SmartLaplaceIterations(m)) =>
      assert ca == Decimal(n) && cb == Decimal(m);
      DecimalInjective(n, m);
    case (GetmeIterations(x, y), GetmeIterations(x', y')) =>
      assert ca == Decimal(x) + ['/'] + Decimal(y);
      assert cb == Decimal(x') + ['/'] + Decimal(y');
      DecimalHasNo('/', x);
      DecimalHasNo('/', x');
      SplitAt('/', Decimal(x), Decimal(y), Decimal(x'), Decimal(y'));
      DecimalInjective(x, x');
      DecimalInjective(y, y');
    case _ =>
  }

  /** `printSmoothingResult`: the algorithm name, the indented quality line,
      the wall-clock time and the iteration line. */
  function SmoothingResultReport(result: SmoothingResult): (r: seq<Piece>)
    ensures |r| >= 6
    ensures r[0] == Text(result.algorithmName + " smoothing result\n")
    ensures r[1] == Text("  mesh quality: ")
    ensures r[1..|r| - 4] == MeshQualityLine(result.meshQuality, "  ")
    ensures r[|r| - 4..] == [Text("  smoothing time: "), Number(result.smoothingWallClockTimeInSeconds), Text("s\n"),
                            Text(IterationsLine(result.iterations))]
  {
    var quality := MeshQualityLine(result.meshQuality, "  ");
    var tail := [Text("  smoothing time: "), Number(result.smoothingWallClockTimeInSeconds), Text("s\n"),
                 Text(IterationsLine(result.iterations))];
    IndentedHeader();
    Framed(Text(result.algorithmName + " smoothing result\n"), quality, tail);
    [Text(result.algorithmName + " smoothing result\n")] + quality + tail
  }

  lemma IndentedHeader()
    ensures QualityHeader("  ") == "  mesh quality: "
  {
  }

  // ---------------------------------------------------------------------
  // Mesh files: format dispatch and result paths
  // ---------------------------------------------------------------------

  /** The two mesh file formats with a reader and a writer. */
  datatype FileFormat = MeshFile | ObjFile

  function FileExtension(format: FileFormat): string
  {
    match format
    case MeshFile => ".mesh"
    case ObjFile => ".obj"
  }

  /** The format a file extension selects, if any. */
  function FormatOf(fExt: string): (r: Option<FileFormat>)
    ensures r.Some? <==> fExt == ".mesh" || fExt == ".obj"
    ensures r.Some? ==> FileExtension(r.value) == fExt
  {
    if fExt == ".mesh" then Some(MeshFile)
    else if fExt == ".obj" then Some(ObjFile)
    else None
  }

  /** Every format is selected by its own extension. */
  lemma FormatOfExtension(format: FileFormat)
    ensures FormatOf(FileExtension(format)) == Some(format)
  {
  }

  /** `readInitialMesh`: the reader an extension selects; any other extension
      throws "Unexpected file extension.". */
  function ReadInitialMesh(fExt: string): (r: Result<FileFormat, string>)
    ensures r.Success? <==> FormatOf(fExt).Some?
    ensures r.Success? ==> FileExtension(r.value) == fExt
    ensures r.Failure? ==> r.error == "Unexpected file extension."
  {
    match FormatOf(fExt)
    case Some(format) => Success(format)
    case None => Failure("Unexpected file extension.")
  }

  /** The path a result mesh is written to: the part of the initial mesh path
      before the first occurrence of the extension, then "_", the mesh name
      and the extension; none when the extension does not occur. */
  function ResultPath(initialMeshPath: string, fExt: string, meshName: string): (r: Option<string>)
    ensures r.None? <==> !Contains(initialMeshPath, fExt)
    ensures r.Some? ==>
      var i := |r.value| - |meshName| - |fExt| - 1;
      && 0 <= i
      && OccursAt(initialMeshPath, fExt, i)
      && (forall j: nat :: j < i ==> !OccursAt(initialMeshPath, fExt, j))
      && r.value == initialMeshPath[..i] + "_" + meshName + fExt
  {
    match Find(initialMeshPath, fExt)
    case Some(index) => Some(initialMeshPath[..index] + "_" + meshName + fExt)
    case None => None
  }

  /** With an empty extension, which is found at index 0, the result path is
      just "_" and the mesh name. */
  lemma ResultPathEmptyExtension(initialMeshPath: string, meshName: string)
    ensures ResultPath(initialMeshPath, "", meshName) == Some("_" + meshName)
  {
    FindEmpty(initialMeshPath);
    assert ResultPath(initialMeshPath, "", meshName) == Some(initialMeshPath[..0] + "_" + meshName + "");
    EmptyAround(initialMeshPath, "_", meshName);
  }

  /** Results written for one initial path under two mesh names share the
      stem and the extension and differ only in the name. */
  lemma ResultPathsShareStem(initialMeshPath: string, fExt: string, name1: string, name2: string)
    ensures ResultPath(initialMeshPath, fExt, name1).Some? <==> ResultPath(initialMeshPath, fExt, name2).Some?
    ensures ResultPath(initialMeshPath, fExt, name1).Some? ==>
      var stem := Find(initialMeshPath, fExt).value;
      && ResultPath(initialMeshPath, fExt, name1).value == initialMeshPath[..stem] + "_" + name1 + fExt
      && ResultPath(initialMeshPath, fExt, name2).value == initialMeshPath[..stem] + "_" + name2 + fExt
  {
  }

  /** The extension is looked for from the start of the path, so whatever
      follows its first occurrence is dropped: "res/a.mesh2.mesh" gives the
      same result path as "res/a.mesh". */
  lemma ResultPathDropsAfterFirst(stem: string, fExt: string, rest: string, meshName: string)
    requires forall j: nat :: j < |stem| ==> !OccursAt(stem + fExt, fExt, j)
    ensures ResultPath(stem + fExt + rest, fExt, meshName) == Some(stem + "_" + meshName + fExt)
  {
    var short, path := stem + fExt, stem + fExt + rest;
    forall j: nat | j < |stem|
      ensures !OccursAt(path, fExt, j)
    {
      assert !OccursAt(short, fExt, j);
      assert path[j..j + |fExt|] == short[j..j + |fExt|];
    }
    assert path[|stem|..|stem| + |fExt|] == fExt;
    FindFirst(path, fExt, |stem|);
    assert path[..|stem|] == stem;
  }

  /** What `writeResultMesh` does: announce the path and hand it to the
      writer of the format, or to no writer for any other extension. */
  datatype WriteAction = WriteAction(announcement: string, path: string, writer: Option<FileFormat>)

  /** `writeResultMesh`: find the extension in the initial mesh path, throw
      when it is missing, cut the path at that point and append "_", the mesh
      name and the extension; then pick the writer by extension. */
  method WriteResultMesh(initialMeshPath: string, fExt: string, meshName: string)
    returns (r: Result<WriteAction, string>)
    ensures r.Failure? <==> !Contains(initialMeshPath, fExt)
    ensures r.Failure? ==> r.error == "File has an unexpected file extension."
    ensures r.Success? ==> ResultPath(initialMeshPath, fExt, meshName) == Some(r.value.path)
    ensures r.Success? ==> r.value.announcement == "Writing result mesh file " + r.value.path + "\n"
    ensures r.Success? ==> r.value.writer == FormatOf(fExt)
  {
    var pathString := initialMeshPath;
    var index := Find(pathString, fExt);
    if index.None? {
      return Failure("File has an unexpected file extension.");
    }
    pathString := pathString[..index.value] + "_" + meshName + fExt;
    var writer := if fExt == ".mesh" then Some(MeshFile)
      else if fExt == ".obj" then Some(ObjFile)
      else None;
    r := Success(WriteAction("Writing result mesh file " + pathString + "\n", pathString, writer));
  }
}
