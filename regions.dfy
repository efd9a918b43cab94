/**
 * What the colour-key overlay of `greenScreen` works with: cells of the target colour,
 * their 8-connected regions as the flood fill lists them, bounding rectangles and the
 * tiled replacement inside a rectangle.
 */
module Regions {
  import opened Pixels
  import opened Grid

  /** `isMatchingColour`: the packed values agree, which is to say the colours are equal. */
  function IsMatchingColour(targetColor: Colour, color: Colour): (r: bool)
    ensures r <==> color == targetColor
  {
    PackInjective(color, targetColor);
    Pack(color) == Pack(targetColor)
  }

  /** Cell q lies in the picture and has the target colour. */
  predicate Matches(pic: Picture, target: Colour, q: Point)
  {
    InBounds(Height(pic), Width(pic), q) && IsMatchingColour(target, Unpack(At(pic, q.0, q.1)))
  }

  /** A cell matches exactly when its packed pixel is the packed target. */
  lemma MatchesPacked(pic: Picture, target: Colour, q: Point)
    requires InBounds(Height(pic), Width(pic), q)
    ensures Matches(pic, target, q) <==> At(pic, q.0, q.1) == Pack(target)
  {
    PackUnpack(At(pic, q.0, q.1));
    UnpackPack(target);
  }

  /** Each cell after the first touches an earlier one, so all are connected to the first. */
  ghost predicate Spanning(region: seq<Point>)
  {
    forall k :: 0 < k < |region| ==> exists m :: 0 <= m < k && Adjacent(region[m], region[k])
  }

  /** No matching cell touches the region from outside. */
  ghost predicate Closed(pic: Picture, target: Colour, region: seq<Point>)
  {
    forall q, n :: q in region && Adjacent(q, n) && Matches(pic, target, n) ==> n in region
  }

  /** An 8-connected component of target-coloured cells, each listed once. */
  ghost predicate Component(pic: Picture, target: Colour, region: seq<Point>)
  {
    region != [] && NoDuplicates(region) && Spanning(region) && Closed(pic, target, region) &&
    forall k :: 0 <= k < |region| ==> Matches(pic, target, region[k])
  }

  /**
   * The flood fill's loop invariant, on values: `seen` holds the cells visited before the
   * fill started, `region` the cells taken so far (visited now), `stack` what is still to
   * be popped. `parents[i]` is the region cell that pushed `stack[i]`, `tree[k]` the one
   * that pushed `region[k]`, and `unvisited` bounds the cells that can still be taken.
   */
  ghost predicate FloodState(pic: Picture, target: Colour, seen: set<Point>, seed: Point,
                             region: seq<Point>, stack: seq<Point>, parents: seq<int>, tree: seq<int>,
                             unvisited: set<Point>)
  {
    |parents| == |stack| && |tree| == |region| &&
    Taken(pic, target, seen, region) &&
    Bounded(pic, seen, region, unvisited) &&
    SeedFirst(pic, target, seen, seed, region, stack) &&
    TreeSpans(region, tree) &&
    PushedBy(region, stack, parents) &&
    Frontier(pic, target, seen, region, stack)
  }

  /** The region holds distinct cells of the colour that were not visited before. */
  ghost predicate Taken(pic: Picture, target: Colour, seen: set<Point>, region: seq<Point>)
  {
    (forall k :: 0 <= k < |region| ==> Matches(pic, target, region[k]) && region[k] !in seen) &&
    NoDuplicates(region)
  }

  /** Every cell still free to take is in `unvisited`. */
  ghost predicate Bounded(pic: Picture, seen: set<Point>, region: seq<Point>, unvisited: set<Point>)
  {
    forall q :: InBounds(Height(pic), Width(pic), q) && q !in seen && q !in region ==> q in unvisited
  }

  /** Before anything is taken the stack is the seed alone; the seed is taken first. */
  ghost predicate SeedFirst(pic: Picture, target: Colour, seen: set<Point>, seed: Point,
                            region: seq<Point>, stack: seq<Point>)
  {
    (region == [] ==> stack == [seed] || (stack == [] && !(Matches(pic, target, seed) && seed !in seen))) &&
    (region != [] ==> region[0] == seed)
  }

  /** Each region cell after the first was pushed by an earlier, adjacent one. */
  ghost predicate TreeSpans(region: seq<Point>, tree: seq<int>)
    requires |tree| == |region|
  {
    forall k :: 0 < k < |region| ==> 0 <= tree[k] < k && Adjacent(region[tree[k]], region[k])
  }

  /** Once the seed is taken, every stack entry was pushed by an adjacent region cell. */
  ghost predicate PushedBy(region: seq<Point>, stack: seq<Point>, parents: seq<int>)
    requires |parents| == |stack|
  {
    region != [] ==> forall i :: 0 <= i < |stack| ==>
                       0 <= parents[i] < |region| && Adjacent(region[parents[i]], stack[i])
  }

  /** A cell of the colour next to the region is visited or still waiting on the stack. */
  ghost predicate Frontier(pic: Picture, target: Colour, seen: set<Point>, region: seq<Point>, stack: seq<Point>)
  {
    forall q, n :: q in region && Adjacent(q, n) && Matches(pic, target, n) ==>
                     n in seen || n in region || n in stack
  }

  /** n copies of x. */
  function Repeat(x: int, n: nat): (s: seq<int>)
    ensures |s| == n && forall i :: 0 <= i < n ==> s[i] == x
  {
    seq(n, _ => x)
  }

  /** The fill starts with nothing taken and the seed alone on the stack. */
  lemma FloodStart(pic: Picture, target: Colour, seen: set<Point>, seed: Point, unvisited: set<Point>)
    requires forall q :: InBounds(Height(pic), Width(pic), q) ==> q in unvisited
    ensures FloodState(pic, target, seen, seed, [], [seed], [-1], [], unvisited)
  {
  }

  /** Popping a cell that is outside, already visited or of another colour keeps the invariant. */
  lemma FloodSkip(pic: Picture, target: Colour, seen: set<Point>, seed: Point,
                  region: seq<Point>, stack: seq<Point>, parents: seq<int>, tree: seq<int>,
                  unvisited: set<Point>)
    requires FloodState(pic, target, seen, seed, region, stack, parents, tree, unvisited)
    requires stack != [] && var p := stack[|stack| - 1];
      !Matches(pic, target, p) || p in seen || p in region
    ensures FloodState(pic, target, seen, seed, region, stack[..|stack| - 1], parents[..|parents| - 1], tree, unvisited)
  {
    var last := |stack| - 1;
    PopKeepsPushedBy(region, stack, parents);
    PopKeepsFrontier(pic, target, seen, region, stack);
  }

  lemma PopKeepsPushedBy(region: seq<Point>, stack: seq<Point>, parents: seq<int>)
    requires |parents| == |stack| && stack != [] && PushedBy(region, stack, parents)
    ensures PushedBy(region, stack[..|stack| - 1], parents[..|parents| - 1])
  {
    var last := |stack| - 1;
    if region != [] {
      assert forall i :: 0 <= i < last ==> stack[..last][i] == stack[i] && parents[..last][i] == parents[i];
    }
  }

  lemma PopKeepsFrontier(pic: Picture, target: Colour, seen: set<Point>, region: seq<Point>, stack: seq<Point>)
    requires stack != [] && Frontier(pic, target, seen, region, stack)
    requires var p := stack[|stack| - 1]; !Matches(pic, target, p) || p in seen || p in region
    ensures Frontier(pic, target, seen, region, stack[..|stack| - 1])
  {
    var last := |stack| - 1;
    assert stack == stack[..last] + [stack[last]];
  }

  /**
   * Taking a popped cell of the colour that was not visited keeps the invariant, with the
   * cell added to the region and its eight neighbours pushed; the bound shrinks.
   */
  lemma FloodTake(pic: Picture, target: Colour, seen: set<Point>, seed: Point,
                  region: seq<Point>, stack: seq<Point>, parents: seq<int>, tree: seq<int>,
                  unvisited: set<Point>)
    requires FloodState(pic, target, seen, seed, region, stack, parents, tree, unvisited)
    requires stack != [] && var p := stack[|stack| - 1];
      Matches(pic, target, p) && p !in seen && p !in region
    ensures var p := stack[|stack| - 1];
      p in unvisited &&
      FloodState(pic, target, seen, seed, region + [p], stack[..|stack| - 1] + Neighbours(p),
                 parents[..|parents| - 1] + Repeat(|region|, |Moves|), tree + [parents[|parents| - 1]],
                 unvisited - {p})
  {
    var last := |stack| - 1;
    var p := stack[last];
    TakeKeepsTaken(pic, target, seen, region, p);
    TakeKeepsTree(seed, region, stack, parents, tree);
    TakeKeepsPushedBy(region, stack, parents);
    TakeKeepsFrontier(pic, target, seen, region, stack);
  }

  lemma TakeKeepsTaken(pic: Picture, target: Colour, seen: set<Point>, region: seq<Point>, p: Point)
    requires Taken(pic, target, seen, region) && Matches(pic, target, p) && p !in seen && p !in region
    ensures Taken(pic, target, seen, region + [p])
  {
    var region' := region + [p];
    assert forall k :: 0 <= k < |region| ==> region'[k] == region[k];
  }

  lemma TakeKeepsTree(seed: Point, region: seq<Point>, stack: seq<Point>, parents: seq<int>, tree: seq<int>)
    requires |tree| == |region| && |parents| == |stack| && stack != []
    requires TreeSpans(region, tree) && PushedBy(region, stack, parents)
    requires region == [] ==> stack == [seed]
    ensures TreeSpans(region + [stack[|stack| - 1]], tree + [parents[|parents| - 1]])
  {
    var last := |stack| - 1;
    var p := stack[last];
    var region' := region + [p];
    var tree' := tree + [parents[last]];
    assert forall k :: 0 <= k < |region| ==> region'[k] == region[k] && tree'[k] == tree[k];
    if region != [] {
      assert 0 <= parents[last] < |region| && Adjacent(region[parents[last]], p);
    }
  }

  lemma TakeKeepsPushedBy(region: seq<Point>, stack: seq<Point>, parents: seq<int>)
    requires |parents| == |stack| && stack != [] && PushedBy(region, stack, parents)
    requires region == [] ==> |stack| == 1
    ensures var p := stack[|stack| - 1];
      PushedBy(region + [p], stack[..|stack| - 1] + Neighbours(p), parents[..|parents| - 1] + Repeat(|region|, |Moves|))
  {
    var last := |stack| - 1;
    var p := stack[last];
    var rest := stack[..last];
    var region' := region + [p];
    var stack' := rest + Neighbours(p);
    var parents' := parents[..last] + Repeat(|region|, |Moves|);
    forall i | 0 <= i < |stack'|
      ensures 0 <= parents'[i] < |region'| && Adjacent(region'[parents'[i]], stack'[i])
    {
      if i < |rest| {
        assert region != [];
        assert stack'[i] == stack[i] && parents'[i] == parents[i];
        assert region'[parents[i]] == region[parents[i]];
      } else {
        assert stack'[i] == Neighbours(p)[i - |rest|] && parents'[i] == |region|;
      }
    }
  }

  lemma TakeKeepsFrontier(pic: Picture, target: Colour, seen: set<Point>, region: seq<Point>, stack: seq<Point>)
    requires stack != [] && Frontier(pic, target, seen, region, stack)
    ensures var p := stack[|stack| - 1];
      Frontier(pic, target, seen, region + [p], stack[..|stack| - 1] + Neighbours(p))
  {
    var last := |stack| - 1;
    var p := stack[last];
    var rest := stack[..last];
    var region' := region + [p];
    var stack' := rest + Neighbours(p);
    assert stack == rest + [p];
    forall q, n | q in region' && Adjacent(q, n) && Matches(pic, target, n)
      ensures n in seen || n in region' || n in stack'
    {
      if q == p {
        assert n in Neighbours(p);
      } else if n != p && n !in seen && n !in region {
        assert n in rest;
      }
    }
  }

  /**
   * When the stack is empty the region is the seed's component among the cells not seen
   * before: it spans from the seed and no cell of the colour next to it was left out.
   */
  lemma FloodDone(pic: Picture, target: Colour, seen: set<Point>, seed: Point,
                  region: seq<Point>, parents: seq<int>, tree: seq<int>, unvisited: set<Point>)
    requires FloodState(pic, target, seen, seed, region, [], parents, tree, unvisited)
    ensures Spanning(region)
    ensures region != [] <==> Matches(pic, target, seed) && seed !in seen
    ensures forall q, n :: q in region && Adjacent(q, n) && Matches(pic, target, n) ==> n in seen || n in region
  {
    forall k | 0 < k < |region|
      ensures exists m :: 0 <= m < k && Adjacent(region[m], region[k])
    {
      assert Adjacent(region[tree[k]], region[k]);
    }
  }

  /** Row-major scan order: p is visited before q. */
  predicate Before(p: Point, q: Point)
  {
    p.0 < q.0 || (p.0 == q.0 && p.1 < q.1)
  }

  /**
   * What `findLargestConnectedRegion` finds: the components of the target colour, each
   * listed from the first cell the row-major scan meets, in scan order, and between them
   * covering every target-coloured cell.
   */
  ghost predicate ComponentsInScanOrder(pic: Picture, target: Colour, found: seq<seq<Point>>)
  {
    FoundComponents(pic, target, found) &&
    (forall k, l :: 0 <= k < l < |found| ==> Before(found[k][0], found[l][0])) &&
    Covers(pic, target, found)
  }

  /** Every cell of the colour lies in one of the regions. */
  ghost predicate Covers(pic: Picture, target: Colour, found: seq<seq<Point>>)
  {
    forall r, c :: Matches(pic, target, (r, c)) ==> exists k :: 0 <= k < |found| && (r, c) in found[k]
  }

  /**
   * `largest` is the first of the found regions of greatest size (the scan replaces the
   * current choice only on a strictly larger region), or empty when nothing was found.
   */
  ghost predicate FirstLargest(found: seq<seq<Point>>, largest: seq<Point>)
  {
    (found == [] ==> largest == []) &&
    (found != [] ==> exists k :: 0 <= k < |found| && largest == found[k] &&
                       (forall l :: 0 <= l < k ==> |found[l]| < |largest|) &&
                       (forall l :: k <= l < |found| ==> |found[l]| <= |largest|))
  }

  /** The cells listed in a region. */
  ghost function Cells(region: seq<Point>): (cells: set<Point>)
    ensures forall q :: q in cells <==> q in region
  {
    set q | q in region
  }

  /**
   * The invariant of the scan of `findLargestConnectedRegion` before position `pos`:
   * `found` lists the regions found so far, `seen` is what is visited and `owner` tells
   * which region each visited cell belongs to.
   */
  ghost predicate ScanState(pic: Picture, target: Colour, pos: Point, seen: set<Point>,
                            found: seq<seq<Point>>, owner: map<Point, int>)
  {
    FoundComponents(pic, target, found) &&
    FoundOrdered(pos, found) &&
    Owned(seen, found, owner) &&
    ScannedSeen(pic, target, pos, seen)
  }

  /** Every cell of the colour the scan has passed is visited. */
  ghost predicate ScannedSeen(pic: Picture, target: Colour, pos: Point, seen: set<Point>)
  {
    forall q :: InBounds(Height(pic), Width(pic), q) && Before(q, pos) && Matches(pic, target, q) ==> q in seen
  }

  /** Distinct components, each listed from its scan-first cell. */
  ghost predicate FoundComponents(pic: Picture, target: Colour, found: seq<seq<Point>>)
  {
    (forall k :: 0 <= k < |found| ==> Component(pic, target, found[k])) &&
    (forall k, l, t :: 0 <= k < l < |found| && 0 <= t < |found[l]| ==> found[l][t] !in found[k]) &&
    (forall k, t :: 0 <= k < |found| && 0 <= t < |found[k]| ==> !Before(found[k][t], found[k][0]))
  }

  /** The regions were started in scan order, all before `pos`. */
  ghost predicate FoundOrdered(pos: Point, found: seq<seq<Point>>)
  {
    (forall k :: 0 <= k < |found| ==> found[k] != [] && Before(found[k][0], pos)) &&
    (forall k, l :: 0 <= k < l < |found| && found[k] != [] && found[l] != [] ==> Before(found[k][0], found[l][0]))
  }

  /** The visited cells are exactly the cells of the found regions. */
  ghost predicate Owned(seen: set<Point>, found: seq<seq<Point>>, owner: map<Point, int>)
  {
    (forall q :: q in seen <==> q in owner) &&
    (forall q :: q in owner ==> 0 <= owner[q] < |found| && q in found[owner[q]]) &&
    (forall k, t :: 0 <= k < |found| && 0 <= t < |found[k]| ==> found[k][t] in seen)
  }

  /** `owner` with every cell of `region` given to region number k. */
  ghost function Assign(owner: map<Point, int>, region: seq<Point>, k: int): (owner': map<Point, int>)
    ensures forall q :: q in owner' <==> q in owner || q in region
    ensures forall q :: q in owner' ==> owner'[q] == if q in region then k else owner[q]
  {
    owner + map q | q in region :: k
  }

  /** The scan starts with nothing visited or found. */
  lemma ScanStart(pic: Picture, target: Colour)
    ensures ScanState(pic, target, (0, 0), {}, [], map[])
  {
  }

  /** Passing over a cell that is visited or of another colour keeps the invariant. */
  lemma ScanSkip(pic: Picture, target: Colour, row: int, col: int, seen: set<Point>,
                 found: seq<seq<Point>>, owner: map<Point, int>)
    requires ScanState(pic, target, (row, col), seen, found, owner)
    requires !Matches(pic, target, (row, col)) || (row, col) in seen
    ensures ScanState(pic, target, (row, col + 1), seen, found, owner)
  {
    var pos := (row, col);
    NextOrdered(pos, (row, col + 1), found);
    forall q | InBounds(Height(pic), Width(pic), q) && Before(q, (row, col + 1)) && Matches(pic, target, q)
      ensures q in seen
    {
      if !Before(q, pos) {
        assert q == pos;
      }
    }
  }

  /** Moving the scan position forward keeps the found regions before it. */
  lemma NextOrdered(pos: Point, next: Point, found: seq<seq<Point>>)
    requires FoundOrdered(pos, found) && !Before(next, pos)
    ensures FoundOrdered(next, found)
  {
  }

  /**
   * Filling from an unvisited cell of the colour yields its component: the region the
   * fill returns is closed, since a neighbour of the colour already visited would lie in
   * an earlier component and would have drawn the region's cells into it.
   */
  lemma ScanTake(pic: Picture, target: Colour, row: int, col: int, seen: set<Point>,
                 found: seq<seq<Point>>, owner: map<Point, int>, region: seq<Point>)
    requires ScanState(pic, target, (row, col), seen, found, owner)
    requires Matches(pic, target, (row, col)) && (row, col) !in seen
    requires forall k :: 0 <= k < |region| ==> Matches(pic, target, region[k]) && region[k] !in seen
    requires NoDuplicates(region) && Spanning(region) && region != [] && region[0] == (row, col)
    requires forall q, n :: q in region && Adjacent(q, n) && Matches(pic, target, n) ==> n in seen || n in region
    ensures ScanState(pic, target, (row, col + 1), seen + Cells(region), found + [region],
                      Assign(owner, region, |found|))
  {
    TakeClosed(pic, target, seen, found, owner, region);
    TakeComponents(pic, target, (row, col), seen, found, owner, region);
    TakeOrdered(row, col, found, region);
    TakeOwned(seen, found, owner, region);
    TakeScanned(pic, target, row, col, seen, region);
  }

  lemma TakeScanned(pic: Picture, target: Colour, row: int, col: int, seen: set<Point>, region: seq<Point>)
    requires ScannedSeen(pic, target, (row, col), seen) && region != [] && region[0] == (row, col)
    ensures ScannedSeen(pic, target, (row, col + 1), seen + Cells(region))
  {
    forall q | InBounds(Height(pic), Width(pic), q) && Before(q, (row, col + 1)) && Matches(pic, target, q)
      ensures q in seen + Cells(region)
    {
      if !Before(q, (row, col)) {
        assert q == region[0];
      }
    }
  }

  /** A neighbour of the colour seen before would lie in an earlier component along with q. */
  lemma TakeClosed(pic: Picture, target: Colour, seen: set<Point>,
                   found: seq<seq<Point>>, owner: map<Point, int>, region: seq<Point>)
    requires forall k :: 0 <= k < |found| ==> Closed(pic, target, found[k])
    requires Owned(seen, found, owner)
    requires forall k :: 0 <= k < |region| ==> Matches(pic, target, region[k]) && region[k] !in seen
    requires forall q, n :: q in region && Adjacent(q, n) && Matches(pic, target, n) ==> n in seen || n in region
    ensures Closed(pic, target, region)
  {
    forall q, n | q in region && Adjacent(q, n) && Matches(pic, target, n)
      ensures n in region
    {
      SeenSpreads(pic, target, seen, found, owner, q, n);
    }
  }

  /** A matching cell next to a visited cell was visited too: it lies in the same region. */
  lemma SeenSpreads(pic: Picture, target: Colour, seen: set<Point>,
                    found: seq<seq<Point>>, owner: map<Point, int>, q: Point, n: Point)
    requires forall k :: 0 <= k < |found| ==> Closed(pic, target, found[k])
    requires Owned(seen, found, owner)
    requires Adjacent(q, n) && Matches(pic, target, q)
    ensures n in seen ==> q in seen
  {
    if n in seen {
      assert Closed(pic, target, found[owner[n]]) && Adjacent(n, q);
    }
  }

  lemma TakeComponents(pic: Picture, target: Colour, pos: Point, seen: set<Point>,
                       found: seq<seq<Point>>, owner: map<Point, int>, region: seq<Point>)
    requires FoundComponents(pic, target, found) && Owned(seen, found, owner)
    requires ScannedSeen(pic, target, pos, seen)
    requires forall k :: 0 <= k < |region| ==> Matches(pic, target, region[k]) && region[k] !in seen
    requires NoDuplicates(region) && Spanning(region) && region != [] && region[0] == pos
    requires Closed(pic, target, region)
    ensures FoundComponents(pic, target, found + [region])
  {
    var found' := found + [region];
    assert forall k :: 0 <= k < |found| ==> found'[k] == found[k];
    assert found'[|found|] == region;
    forall k, l, t | 0 <= k < l < |found'| && 0 <= t < |found'[l]|
      ensures found'[l][t] !in found'[k]
    {
      if l == |found| && region[t] in found[k] {
        assert false;
      }
    }
    forall t | 0 <= t < |region|
      ensures !Before(region[t], region[0])
    {
      assert InBounds(Height(pic), Width(pic), region[t]);
    }
  }

  lemma TakeOrdered(row: int, col: int, found: seq<seq<Point>>, region: seq<Point>)
    requires FoundOrdered((row, col), found) && region != [] && region[0] == (row, col)
    ensures FoundOrdered((row, col + 1), found + [region])
  {
    var found' := found + [region];
    assert forall k :: 0 <= k < |found| ==> found'[k] == found[k];
  }

  lemma TakeOwned(seen: set<Point>, found: seq<seq<Point>>, owner: map<Point, int>, region: seq<Point>)
    requires Owned(seen, found, owner)
    ensures Owned(seen + Cells(region), found + [region], Assign(owner, region, |found|))
  {
    var found' := found + [region];
    var owner' := Assign(owner, region, |found|);
    assert forall k :: 0 <= k < |found| ==> found'[k] == found[k];
    forall q | q in owner'
      ensures 0 <= owner'[q] < |found'| && q in found'[owner'[q]]
    {
      if q !in Cells(region) {
        assert owner'[q] == owner[q];
      }
    }
  }

  /** A finished row hands over to the start of the next one. */
  lemma ScanNextRow(pic: Picture, target: Colour, row: int, seen: set<Point>,
                    found: seq<seq<Point>>, owner: map<Point, int>)
    requires ScanState(pic, target, (row, Width(pic)), seen, found, owner)
    ensures ScanState(pic, target, (row + 1, 0), seen, found, owner)
  {
  }

  /** After the last row every cell of the colour lies in a found region. */
  lemma ScanDone(pic: Picture, target: Colour, seen: set<Point>, found: seq<seq<Point>>, owner: map<Point, int>)
    requires ScanState(pic, target, (Height(pic), 0), seen, found, owner)
    ensures ComponentsInScanOrder(pic, target, found)
  {
    forall r, c | Matches(pic, target, (r, c))
      ensures exists k :: 0 <= k < |found| && (r, c) in found[k]
    {
      assert (r, c) in seen;
      assert (r, c) in found[owner[(r, c)]];
    }
  }

  /** `largest` is `found[best]`, the first region of greatest size. */
  ghost predicate LargestSoFar(found: seq<seq<Point>>, largest: seq<Point>, best: int)
  {
    (found == [] ==> largest == []) &&
    (found != [] ==> 0 <= best < |found| && largest == found[best] &&
                     (forall l :: 0 <= l < best ==> |found[l]| < |largest|) &&
                     (forall l :: best <= l < |found| ==> |found[l]| <= |largest|))
  }

  /** Replacing the choice only on a strictly larger region keeps the first largest. */
  lemma LargestStep(found: seq<seq<Point>>, largest: seq<Point>, best: int, region: seq<Point>)
    requires LargestSoFar(found, largest, best) && region != []
    ensures |region| > |largest| ==> LargestSoFar(found + [region], region, |found|)
    ensures |region| <= |largest| ==> LargestSoFar(found + [region], largest, best)
  {
    var found' := found + [region];
    assert forall l :: 0 <= l < |found| ==> found'[l] == found[l];
  }

  lemma LargestDone(found: seq<seq<Point>>, largest: seq<Point>, best: int)
    requires LargestSoFar(found, largest, best)
    ensures FirstLargest(found, largest)
  {
  }

  /** The region kept is one of the components found. */
  lemma LargestIsComponent(pic: Picture, target: Colour, found: seq<seq<Point>>, largest: seq<Point>)
    requires FoundComponents(pic, target, found) && FirstLargest(found, largest) && largest != []
    ensures Component(pic, target, largest)
  {
    var k :| 0 <= k < |found| && largest == found[k] &&
             (forall l :: 0 <= l < k ==> |found[l]| < |largest|) &&
             (forall l :: k <= l < |found| ==> |found[l]| <= |largest|);
    assert Component(pic, target, found[k]);
  }

  /**
   * A spanning region is connected through cells of the colour, so a closed region that
   * holds any one of its cells holds its first one ...
   */
  lemma {:induction false} ReachesFirst(pic: Picture, target: Colour, a: seq<Point>, b: seq<Point>, k: int)
    requires Spanning(a) && (forall t :: 0 <= t < |a| ==> Matches(pic, target, a[t])) && Closed(pic, target, b)
    requires 0 <= k < |a| && a[k] in b
    ensures a[0] in b
    decreases k
  {
    if k > 0 {
      var m :| 0 <= m < k && Adjacent(a[m], a[k]);
      assert Adjacent(a[k], a[m]);
      ReachesFirst(pic, target, a, b, m);
    }
  }

  /** ... and then all of them. */
  lemma {:induction false} HoldsAll(pic: Picture, target: Colour, a: seq<Point>, b: seq<Point>, k: int)
    requires Spanning(a) && (forall t :: 0 <= t < |a| ==> Matches(pic, target, a[t])) && Closed(pic, target, b)
    requires a != [] && a[0] in b && 0 <= k < |a|
    ensures a[k] in b
    decreases k
  {
    if k > 0 {
      var m :| 0 <= m < k && Adjacent(a[m], a[k]);
      HoldsAll(pic, target, a, b, m);
    }
  }

  /**
   * Two components that share a cell have the same cells: the region the fill returns is
   * the whole 8-connected component of each of its cells, and components never overlap.
   */
  lemma ComponentUnique(pic: Picture, target: Colour, a: seq<Point>, b: seq<Point>, q: Point)
    requires Component(pic, target, a) && Component(pic, target, b) && q in a && q in b
    ensures Cells(a) == Cells(b)
  {
    var i :| 0 <= i < |a| && a[i] == q;
    var j :| 0 <= j < |b| && b[j] == q;
    ReachesFirst(pic, target, a, b, i);
    ReachesFirst(pic, target, b, a, j);
    forall k | 0 <= k < |a|
      ensures a[k] in b
    {
      HoldsAll(pic, target, a, b, k);
    }
    forall k | 0 <= k < |b|
      ensures b[k] in a
    {
      HoldsAll(pic, target, b, a, k);
    }
  }

  /**
   * The region kept is at least as large as the component of any cell of the colour,
   * hence non-empty as soon as one cell has the colour.
   */
  lemma LargestIsLargest(pic: Picture, target: Colour, found: seq<seq<Point>>, largest: seq<Point>, r: int, c: int)
    requires ComponentsInScanOrder(pic, target, found) && FirstLargest(found, largest)
    requires Matches(pic, target, (r, c))
    ensures largest != []
    ensures forall k :: 0 <= k < |found| && (r, c) in found[k] ==> |found[k]| <= |largest|
  {
    var k :| 0 <= k < |found| && (r, c) in found[k];
    assert found != [];
  }

  /** With no cell of the colour nothing is found, and `greenScreen` returns a plain copy. */
  lemma NothingToReplace(pic: Picture, target: Colour, found: seq<seq<Point>>, largest: seq<Point>)
    requires ComponentsInScanOrder(pic, target, found) && FirstLargest(found, largest)
    requires forall r, c :: 0 <= r < Height(pic) && 0 <= c < Width(pic) ==> At(pic, r, c) != Pack(target)
    ensures found == [] && largest == []
  {
    if found != [] {
      assert Component(pic, target, found[0]);
      var q := found[0][0];
      MatchesPacked(pic, target, q);
      assert false;
    }
  }

  /** The Java `Rectangle` built by `findRectangle`: x is the row, y the column. */
  datatype Rectangle = Rectangle(xTopLeft: int, yTopLeft: int, xBottomRight: int, yBottomRight: int)

  predicate InRectangle(rect: Rectangle, r: int, c: int)
  {
    rect.xTopLeft <= r <= rect.xBottomRight && rect.yTopLeft <= c <= rect.yBottomRight
  }

  /** The rectangle is the smallest one holding every cell of the (non-empty) region. */
  ghost predicate IsBoundingBox(rect: Rectangle, region: seq<Point>)
  {
    (forall k :: 0 <= k < |region| ==> InRectangle(rect, region[k].0, region[k].1)) &&
    (exists k :: 0 <= k < |region| && region[k].0 == rect.xTopLeft) &&
    (exists k :: 0 <= k < |region| && region[k].1 == rect.yTopLeft) &&
    (exists k :: 0 <= k < |region| && region[k].0 == rect.xBottomRight) &&
    (exists k :: 0 <= k < |region| && region[k].1 == rect.yBottomRight)
  }

  /** The bounding box of cells inside a height x width grid lies inside the grid. */
  lemma BoundingBoxWithin(height: int, width: int, rect: Rectangle, region: seq<Point>)
    requires IsBoundingBox(rect, region) && forall k :: 0 <= k < |region| ==> InBounds(height, width, region[k])
    ensures 0 <= rect.xTopLeft <= rect.xBottomRight < height && 0 <= rect.yTopLeft <= rect.yBottomRight < width
  {
    var a :| 0 <= a < |region| && region[a].0 == rect.xTopLeft;
    var b :| 0 <= b < |region| && region[b].1 == rect.yTopLeft;
    var c :| 0 <= c < |region| && region[c].0 == rect.xBottomRight;
    var d :| 0 <= d < |region| && region[d].1 == rect.yBottomRight;
  }

  /** No rectangle that holds the region is smaller than its bounding box. */
  lemma BoundingBoxSmallest(rect: Rectangle, region: seq<Point>, other: Rectangle)
    requires IsBoundingBox(rect, region)
    requires forall k :: 0 <= k < |region| ==> InRectangle(other, region[k].0, region[k].1)
    ensures other.xTopLeft <= rect.xTopLeft && other.yTopLeft <= rect.yTopLeft
    ensures rect.xBottomRight <= other.xBottomRight && rect.yBottomRight <= other.yBottomRight
  {
    var a :| 0 <= a < |region| && region[a].0 == rect.xTopLeft;
    var b :| 0 <= b < |region| && region[b].1 == rect.yTopLeft;
    var c :| 0 <= c < |region| && region[c].0 == rect.xBottomRight;
    var d :| 0 <= d < |region| && region[d].1 == rect.yBottomRight;
  }

  /**
   * The pixel `setGreenScreen` leaves at (r, c): inside the rectangle a target-coloured
   * pixel is replaced by the background tiled from the top-left corner of the image;
   * everything else keeps its value.
   */
  function GreenScreenPixel(pic: Picture, target: Colour, rect: Rectangle, background: Picture, r: int, c: int): Int32
    requires 0 <= r < Height(pic) && 0 <= c < Width(pic)
    requires Height(background) >= 1 && Width(background) >= 1
  {
    if InRectangle(rect, r, c) && IsMatchingColour(target, Unpack(At(pic, r, c)))
    then At(background, r % Height(background), c % Width(background))
    else At(pic, r, c)
  }

  /** Outside the rectangle, and wherever the pixel is not the target colour, nothing changes. */
  lemma GreenScreenKeeps(pic: Picture, target: Colour, rect: Rectangle, background: Picture, r: int, c: int)
    requires 0 <= r < Height(pic) && 0 <= c < Width(pic)
    requires Height(background) >= 1 && Width(background) >= 1
    requires !InRectangle(rect, r, c) || At(pic, r, c) != Pack(target)
    ensures GreenScreenPixel(pic, target, rect, background, r, c) == At(pic, r, c)
  {
    MatchesPacked(pic, target, (r, c));
  }

  /** Inside the rectangle every target-coloured pixel takes the tiled background's value. */
  lemma GreenScreenReplaces(pic: Picture, target: Colour, rect: Rectangle, background: Picture, r: int, c: int)
    requires 0 <= r < Height(pic) && 0 <= c < Width(pic)
    requires Height(background) >= 1 && Width(background) >= 1
    requires InRectangle(rect, r, c) && At(pic, r, c) == Pack(target)
    ensures GreenScreenPixel(pic, target, rect, background, r, c) ==
            At(background, r % Height(background), c % Width(background))
  {
    MatchesPacked(pic, target, (r, c));
  }
}
