/**
 * The screen-element flattener of TouchAccessibilityService and the
 * companion-state guards of its gesture and global-action commands.
 *
 * The accessibility node tree is an immutable datatype; a missing child
 * (`getChild` returning null) is `None`. The flattener is a depth-limited
 * pre-order walk that emits one entry per labelled or clickable node and
 * joins the rendered entries with newlines. What the platform returns
 * (the active window's root, whether a gesture or global action was
 * dispatched) is passed in as parameters.
 */
module Accessibility {
  import opened Basics
  import opened Text

  /** Nodes deeper than this (the root is at depth 0) are skipped with their subtrees. */
  const MaxDepth: int := 8

  /** An `android.graphics.Rect` in screen coordinates. */
  datatype Rect = Rect(left: int, top: int, right: int, bottom: int)

  /** `Rect.centerX()` and `Rect.centerY()`: the arithmetic shift right by one, that is, floor halving. */
  function CenterX(r: Rect): (x: int)
    ensures 2 * x <= r.left + r.right < 2 * x + 2
  {
    (r.left + r.right) / 2
  }

  function CenterY(r: Rect): (y: int)
    ensures 2 * y <= r.top + r.bottom < 2 * y + 2
  {
    (r.top + r.bottom) / 2
  }

  /** An `AccessibilityNodeInfo`: the fields the flattener reads, and its children in index order. */
  datatype Node = Node(
    text: Option<string>,
    contentDescription: Option<string>,
    className: Option<string>,
    clickable: bool,
    bounds: Rect,
    children: seq<Option<Node>>)

  /** One emitted element, before rendering. */
  datatype Entry = Entry(centerX: int, centerY: int, clickable: bool, labelText: string, className: string, bounds: Rect)

  /** The text if it is non-empty, otherwise the content description; a missing value counts as "". */
  function Label(n: Node): (r: string)
    ensures r == "" <==> n.text.GetOr("") == "" && n.contentDescription.GetOr("") == ""
    ensures n.text.GetOr("") != "" ==> r == n.text.value
    ensures n.text.GetOr("") == "" ==> r == n.contentDescription.GetOr("")
  {
    var text := n.text.GetOr("");
    if text != "" then text else n.contentDescription.GetOr("")
  }

  /** The class name after its last '.', or "" when the node has none. */
  function ShortClassName(n: Node): (r: string)
    ensures '.' !in r
    ensures n.className.None? ==> r == ""
    ensures n.className.Some? ==> r == AfterLastDot(n.className.value)
  {
    if n.className.None? then "" else AfterLastDot(n.className.value)
  }

  /** A node is emitted when it has a label or is clickable. */
  predicate Emits(n: Node) {
    Label(n) != "" || n.clickable
  }

  function EntryOf(n: Node): Entry {
    Entry(CenterX(n.bounds), CenterY(n.bounds), n.clickable, Label(n), ShortClassName(n), n.bounds)
  }

  /** The entries `collectElements(node, list, depth)` appends, in order. */
  function Collect(node: Node, depth: int): seq<Entry>
    decreases node, |node.children| + 1
  {
    if depth > MaxDepth then []
    else (if Emits(node) then [EntryOf(node)] else []) + CollectFrom(node, 0, depth + 1)
  }

  /** The entries of the children of `node` from index `i` on, each visited at `depth`. */
  function CollectFrom(node: Node, i: nat, depth: int): seq<Entry>
    requires i <= |node.children|
    decreases node, |node.children| - i
  {
    if i == |node.children| then [] else CollectChild(node, i, depth) + CollectFrom(node, i + 1, depth)
  }

  /** The entries of child `i`; a missing child is skipped. */
  function CollectChild(node: Node, i: nat, depth: int): seq<Entry>
    requires i < |node.children|
    decreases node, 0
  {
    match node.children[i]
    case None => []
    case Some(c) => Collect(c, depth)
  }

  // ---------------------------------------------------------------------
  // Paths, the visited set and the pre-order.

  /** A path of child indices from a node; `[]` is the node itself. */
  type Path = seq<nat>

  /** The node at path `p`, if every step names a present child. */
  function At(node: Node, p: Path): Option<Node>
    decreases |p|
  {
    if p == [] then Some(node)
    else if p[0] < |node.children| && node.children[p[0]].Some? then At(node.children[p[0]].value, p[1..])
    else None
  }

  lemma AtStep(node: Node, p: Path)
    requires p != []
    ensures At(node, p) ==
      if p[0] < |node.children| && node.children[p[0]].Some? then At(node.children[p[0]].value, p[1..]) else None
  {
  }

  /** Each path of `ps`, extended at the front by the step `i`. */
  function Prefixed(i: nat, ps: seq<Path>): (r: seq<Path>)
    ensures |r| == |ps|
    ensures forall k :: 0 <= k < |ps| ==> r[k] == [i] + ps[k]
  {
    if ps == [] then [] else [[i] + ps[0]] + Prefixed(i, ps[1..])
  }

  /** The paths of the nodes the walk visits from `node` at `depth`, in visiting order. */
  function Walk(node: Node, depth: int): seq<Path>
    decreases node, |node.children| + 1
  {
    if depth > MaxDepth then [] else [[]] + WalkFrom(node, 0, depth + 1)
  }

  function WalkFrom(node: Node, i: nat, depth: int): seq<Path>
    requires i <= |node.children|
    decreases node, |node.children| - i
  {
    if i == |node.children| then [] else WalkChild(node, i, depth) + WalkFrom(node, i + 1, depth)
  }

  function WalkChild(node: Node, i: nat, depth: int): seq<Path>
    requires i < |node.children|
    decreases node, 0
  {
    match node.children[i]
    case None => []
    case Some(c) => Prefixed(i, Walk(c, depth))
  }

  lemma WalkUnfold(node: Node, depth: int)
    requires depth <= MaxDepth
    ensures Walk(node, depth) == [[]] + WalkFrom(node, 0, depth + 1)
  {
  }

  lemma WalkFromUnfold(node: Node, i: nat, depth: int)
    requires i < |node.children|
    ensures WalkFrom(node, i, depth) == WalkChild(node, i, depth) + WalkFrom(node, i + 1, depth)
  {
  }

  lemma CollectUnfold(node: Node, depth: int)
    requires depth <= MaxDepth
    ensures Collect(node, depth) == EntryAt(node, []) + CollectFrom(node, 0, depth + 1)
  {
  }

  lemma CollectFromUnfold(node: Node, i: nat, depth: int)
    requires i < |node.children|
    ensures CollectFrom(node, i, depth) == CollectChild(node, i, depth) + CollectFrom(node, i + 1, depth)
  {
  }

  /** The entries of the emitting nodes among those at `ps`, in the order of `ps`. */
  function EntriesAt(node: Node, ps: seq<Path>): (r: seq<Entry>)
    ensures |r| <= |ps|
  {
    if ps == [] then [] else EntryAt(node, ps[0]) + EntriesAt(node, ps[1..])
  }

  /** The entry of the node at `p`: none if it is missing or does not emit. */
  function EntryAt(node: Node, p: Path): seq<Entry> {
    match At(node, p)
    case None => []
    case Some(n) => if Emits(n) then [EntryOf(n)] else []
  }

  lemma EntriesAtCons(node: Node, p: Path, rest: seq<Path>)
    ensures EntriesAt(node, [p] + rest) == EntryAt(node, p) + EntriesAt(node, rest)
  {
    assert ([p] + rest)[0] == p && ([p] + rest)[1..] == rest;
  }

  /** Document order: an ancestor precedes its descendants, and earlier siblings' subtrees precede later ones. */
  predicate PreLess(p: Path, q: Path) {
    if p == [] then q != []
    else q != [] && (p[0] < q[0] || (p[0] == q[0] && PreLess(p[1..], q[1..])))
  }

  predicate StrictlyOrdered(ps: seq<Path>) {
    forall i, j :: 0 <= i < j < |ps| ==> PreLess(ps[i], ps[j])
  }

  lemma {:induction false} PreLessIrreflexive(p: Path)
    ensures !PreLess(p, p)
  {
    if p != [] {
      PreLessIrreflexive(p[1..]);
    }
  }

  /** A proper ancestor precedes its descendants. */
  lemma {:induction false} AncestorPrecedes(p: Path, q: Path)
    requires |p| < |q| && q[..|p|] == p
    ensures PreLess(p, q)
  {
    if p != [] {
      assert q[1..][..|p| - 1] == p[1..];
      AncestorPrecedes(p[1..], q[1..]);
    }
  }

  lemma PreLessPrefixed(i: nat, p: Path, q: Path)
    ensures PreLess([i] + p, [i] + q) == PreLess(p, q)
  {
    assert ([i] + p)[1..] == p && ([i] + q)[1..] == q;
  }

  lemma StrictlyOrderedAppend(a: seq<Path>, b: seq<Path>)
    requires StrictlyOrdered(a) && StrictlyOrdered(b)
    requires forall i, j :: 0 <= i < |a| && 0 <= j < |b| ==> PreLess(a[i], b[j])
    ensures StrictlyOrdered(a + b)
  {
    forall i, j | 0 <= i < j < |a + b|
      ensures PreLess((a + b)[i], (a + b)[j])
    {
      if j < |a| {
      } else if i >= |a| {
        assert (a + b)[i] == b[i - |a|] && (a + b)[j] == b[j - |a|];
      }
    }
  }

  lemma StrictlyOrderedPrefixed(i: nat, ps: seq<Path>)
    requires StrictlyOrdered(ps)
    ensures StrictlyOrdered(Prefixed(i, ps))
  {
    var r := Prefixed(i, ps);
    forall a, b | 0 <= a < b < |r|
      ensures PreLess(r[a], r[b])
    {
      PreLessPrefixed(i, ps[a], ps[b]);
    }
  }

  lemma {:induction false} InPrefixed(i: nat, ps: seq<Path>, p: Path)
    ensures p in Prefixed(i, ps) <==> p != [] && p[0] == i && p[1..] in ps
  {
    if ps != [] {
      InPrefixed(i, ps[1..], p);
      assert ps == [ps[0]] + ps[1..];
      assert p in Prefixed(i, ps) <==> p == [i] + ps[0] || p in Prefixed(i, ps[1..]);
      if p != [] && p[0] == i && p[1..] == ps[0] {
        assert p == [p[0]] + p[1..];
      }
      if p == [i] + ps[0] {
        assert p[1..] == ps[0];
      }
    }
  }

  /** Every path from child `i` starts with the step `i`. */
  lemma WalkChildHeads(node: Node, i: nat, depth: int)
    requires i < |node.children|
    ensures forall p :: p in WalkChild(node, i, depth) ==> p != [] && p[0] == i
  {
    if node.children[i].Some? {
      forall p | p in WalkChild(node, i, depth)
        ensures p != [] && p[0] == i
      {
        InPrefixed(i, Walk(node.children[i].value, depth), p);
      }
    }
  }

  /** Every path from `WalkFrom(node, i, _)` steps first to a child at index `i` or later. */
  lemma {:induction false} WalkFromHeads(node: Node, i: nat, depth: int)
    requires i <= |node.children|
    ensures forall p :: p in WalkFrom(node, i, depth) ==> p != [] && p[0] >= i
    decreases |node.children| - i
  {
    if i < |node.children| {
      WalkFromUnfold(node, i, depth);
      WalkChildHeads(node, i, depth);
      WalkFromHeads(node, i + 1, depth);
    }
  }

  /** The walk lists each visited node once, in document order. */
  lemma {:induction false} WalkIsOrdered(node: Node, depth: int)
    ensures StrictlyOrdered(Walk(node, depth))
    decreases node, |node.children| + 1
  {
    if depth <= MaxDepth {
      var d := depth + 1;
      var rest := WalkFrom(node, 0, d);
      WalkUnfold(node, depth);
      WalkFromIsOrdered(node, 0, d);
      WalkFromHeads(node, 0, d);
      forall j | 0 <= j < |rest|
        ensures PreLess([], rest[j])
      {
        assert rest[j] in rest;
      }
      StrictlyOrderedAppend([[]], rest);
    }
  }

  lemma {:induction false} WalkFromIsOrdered(node: Node, i: nat, depth: int)
    requires i <= |node.children|
    ensures StrictlyOrdered(WalkFrom(node, i, depth))
    decreases node, |node.children| - i
  {
    if i < |node.children| {
      var head := WalkChild(node, i, depth);
      var rest := WalkFrom(node, i + 1, depth);
      WalkFromUnfold(node, i, depth);
      WalkChildIsOrdered(node, i, depth);
      WalkChildHeads(node, i, depth);
      WalkFromIsOrdered(node, i + 1, depth);
      WalkFromHeads(node, i + 1, depth);
      forall a, b | 0 <= a < |head| && 0 <= b < |rest|
        ensures PreLess(head[a], rest[b])
      {
        assert head[a] in head && rest[b] in rest;
      }
      StrictlyOrderedAppend(head, rest);
    }
  }

  lemma {:induction false} WalkChildIsOrdered(node: Node, i: nat, depth: int)
    requires i < |node.children|
    ensures StrictlyOrdered(WalkChild(node, i, depth))
    decreases node, 0
  {
    match node.children[i]
    case None =>
    case Some(c) =>
      WalkIsOrdered(c, depth);
      StrictlyOrderedPrefixed(i, Walk(c, depth));
  }

  /** Document order is asymmetric. */
  lemma {:induction false} PreLessAsymmetric(p: Path, q: Path)
    ensures PreLess(p, q) ==> !PreLess(q, p)
  {
    if p != [] && q != [] && p[0] == q[0] {
      PreLessAsymmetric(p[1..], q[1..]);
    }
  }

  /** In the walk, a node comes before every one of its descendants. */
  lemma WalkAncestorFirst(node: Node, depth: int, i: int, j: int)
    requires 0 <= i < |Walk(node, depth)| && 0 <= j < |Walk(node, depth)|
    requires var ps := Walk(node, depth); |ps[i]| < |ps[j]| && ps[j][..|ps[i]|] == ps[i]
    ensures i < j
  {
    var ps := Walk(node, depth);
    WalkIsOrdered(node, depth);
    AncestorPrecedes(ps[i], ps[j]);
    PreLessAsymmetric(ps[i], ps[j]);
  }

  /** A strictly ordered walk has no repeated path. */
  lemma OrderedHasNoDuplicates(ps: seq<Path>)
    requires StrictlyOrdered(ps)
    ensures forall i, j :: 0 <= i < j < |ps| ==> ps[i] != ps[j]
  {
    forall i, j | 0 <= i < j < |ps|
      ensures ps[i] != ps[j]
    {
      PreLessIrreflexive(ps[i]);
    }
  }

  /**
   * The walk from `node` at `depth` visits exactly the present nodes whose
   * depth is at most `MaxDepth`: a missing child and everything deeper are skipped.
   */
  lemma {:induction false} WalkVisits(node: Node, depth: int, p: Path)
    ensures p in Walk(node, depth) <==> At(node, p).Some? && depth + |p| <= MaxDepth
    decreases node, |node.children| + 1
  {
    if depth <= MaxDepth {
      var d := depth + 1;
      var rest := WalkFrom(node, 0, d);
      WalkUnfold(node, depth);
      if p == [] {
        assert ([[]] + rest)[0] == p;
      } else {
        assert p in [[]] + rest <==> p in rest;
        WalkFromVisits(node, 0, d, p);
      }
    }
  }

  lemma {:induction false} WalkFromVisits(node: Node, i: nat, depth: int, p: Path)
    requires i <= |node.children|
    ensures p in WalkFrom(node, i, depth) <==>
      p != [] && i <= p[0] && At(node, p).Some? && depth + |p| - 1 <= MaxDepth
    decreases node, |node.children| - i
  {
    if p != [] {
      AtStep(node, p);
    }
    if i < |node.children| {
      WalkFromUnfold(node, i, depth);
      WalkChildVisits(node, i, depth, p);
      WalkFromVisits(node, i + 1, depth, p);
    }
  }

  lemma {:induction false} WalkChildVisits(node: Node, i: nat, depth: int, p: Path)
    requires i < |node.children|
    ensures p in WalkChild(node, i, depth) <==>
      p != [] && p[0] == i && At(node, p).Some? && depth + |p| - 1 <= MaxDepth
    decreases node, 0
  {
    if p != [] {
      AtStep(node, p);
    }
    match node.children[i]
    case None =>
    case Some(c) =>
      InPrefixed(i, Walk(c, depth), p);
      if p != [] && p[0] == i {
        WalkVisits(c, depth, p[1..]);
      }
  }

  lemma {:induction false} EntriesAtAppend(node: Node, a: seq<Path>, b: seq<Path>)
    ensures EntriesAt(node, a + b) == EntriesAt(node, a) + EntriesAt(node, b)
  {
    if a == [] {
      assert a + b == b;
    } else {
      var head, tail := EntryAt(node, a[0]), a[1..];
      SplitHead(a, b);
      EntriesAtCons(node, a[0], tail + b);
      EntriesAtCons(node, a[0], tail);
      EntriesAtAppend(node, tail, b);
      AppendAssociative(head, EntriesAt(node, tail), EntriesAt(node, b));
    }
  }

  lemma {:induction false} EntriesAtPrefixed(node: Node, i: nat, c: Node, ps: seq<Path>)
    requires i < |node.children| && node.children[i] == Some(c)
    ensures EntriesAt(node, Prefixed(i, ps)) == EntriesAt(c, ps)
  {
    if ps != [] {
      AtStep(node, [i] + ps[0]);
      assert ([i] + ps[0])[1..] == ps[0];
      EntriesAtCons(node, [i] + ps[0], Prefixed(i, ps[1..]));
      EntriesAtPrefixed(node, i, c, ps[1..]);
    }
  }

  /** `collectElements` emits exactly the entries of the visited nodes that emit, in walk order. */
  lemma {:induction false} CollectIsEntriesOfWalk(node: Node, depth: int)
    ensures Collect(node, depth) == EntriesAt(node, Walk(node, depth))
    decreases node, |node.children| + 1
  {
    if depth <= MaxDepth {
      var d := depth + 1;
      CollectUnfold(node, depth);
      WalkUnfold(node, depth);
      CollectFromIsEntriesOfWalkFrom(node, 0, d);
      EntriesAtCons(node, [], WalkFrom(node, 0, d));
    }
  }

  lemma {:induction false} CollectFromIsEntriesOfWalkFrom(node: Node, i: nat, depth: int)
    requires i <= |node.children|
    ensures CollectFrom(node, i, depth) == EntriesAt(node, WalkFrom(node, i, depth))
    decreases node, |node.children| - i
  {
    if i < |node.children| {
      CollectFromUnfold(node, i, depth);
      WalkFromUnfold(node, i, depth);
      CollectChildIsEntriesOfWalkChild(node, i, depth);
      CollectFromIsEntriesOfWalkFrom(node, i + 1, depth);
      EntriesAtAppend(node, WalkChild(node, i, depth), WalkFrom(node, i + 1, depth));
    }
  }

  lemma {:induction false} CollectChildIsEntriesOfWalkChild(node: Node, i: nat, depth: int)
    requires i < |node.children|
    ensures CollectChild(node, i, depth) == EntriesAt(node, WalkChild(node, i, depth))
    decreases node, 0
  {
    match node.children[i]
    case None =>
    case Some(c) =>
      CollectIsEntriesOfWalk(c, depth);
      EntriesAtPrefixed(node, i, c, Walk(c, depth));
  }

  /** There is at most one entry per node visited, that is, per present node at depth at most `MaxDepth`. */
  lemma CollectIsBoundedByWalk(node: Node, depth: int)
    ensures |Collect(node, depth)| <= |Walk(node, depth)|
  {
    CollectIsEntriesOfWalk(node, depth);
  }

  /** A node deeper than `MaxDepth` contributes nothing. */
  lemma CollectBelowLimit(node: Node, depth: int)
    requires depth > MaxDepth
    ensures Collect(node, depth) == [] && Walk(node, depth) == []
  {
  }

  // ---------------------------------------------------------------------
  // Rendering and the joined report.

  /** One line of the report: `[cx,cy] <clickable mark> "label" (class) [left,top,right,bottom]`. */
  function Render(e: Entry): (s: string)
    ensures |s| > 0 && s[0] == '['
  {
    "[" + Coordinates([e.centerX, e.centerY]) + "] "
    + (if e.clickable then "可点击" else "")
    + " \"" + e.labelText + "\" (" + e.className + ") ["
    + Coordinates([e.bounds.left, e.bounds.top, e.bounds.right, e.bounds.bottom]) + "]"
  }

  /** The decimal numerals of `xs`. */
  function Numerals(xs: seq<int>): (r: seq<string>)
    ensures |r| == |xs|
    ensures forall k :: 0 <= k < |xs| ==> r[k] == IntToString(xs[k])
  {
    if xs == [] then [] else [IntToString(xs[0])] + Numerals(xs[1..])
  }

  /** Comma-separated numbers, as string templates print `$a,$b`. */
  function Coordinates(xs: seq<int>): string {
    Join(Numerals(xs), ',')
  }

  /** The numbers come back from their comma-separated form. */
  lemma CoordinatesRoundTrip(xs: seq<int>)
    requires |xs| > 0
    ensures var parts := Split(Coordinates(xs), ',');
      |parts| == |xs| && forall k :: 0 <= k < |xs| ==> IntToStringParses(parts[k]) && ParseInt(parts[k]) == xs[k]
  {
    var ns := Numerals(xs);
    forall k | 0 <= k < |ns|
      ensures ',' !in ns[k]
    {
      IntToStringAvoids(xs[k], ',');
    }
    SplitJoin(ns, ',');
    forall k | 0 <= k < |xs|
      ensures ParseInt(ns[k]) == xs[k]
    {
      ParseIntOfIntToString(xs[k]);
    }
  }

  function RenderAll(es: seq<Entry>): (r: seq<string>)
    ensures |r| == |es|
    ensures forall k :: 0 <= k < |es| ==> r[k] == Render(es[k])
  {
    if es == [] then [] else [Render(es[0])] + RenderAll(es[1..])
  }

  lemma CoordinatesAreOneLine(xs: seq<int>)
    ensures '\n' !in Coordinates(xs)
  {
    var ns := Numerals(xs);
    forall k | 0 <= k < |ns|
      ensures '\n' !in ns[k]
    {
      IntToStringAvoids(xs[k], '\n');
    }
    JoinAvoids(ns, ',', '\n');
  }

  predicate LineSafe(e: Entry) {
    '\n' !in e.labelText && '\n' !in e.className
  }

  /** A rendered entry is one line when its label and class name are. */
  lemma RenderIsOneLine(e: Entry)
    requires LineSafe(e)
    ensures '\n' !in Render(e)
  {
    CoordinatesAreOneLine([e.centerX, e.centerY]);
    CoordinatesAreOneLine([e.bounds.left, e.bounds.top, e.bounds.right, e.bounds.bottom]);
  }

  const NotRunning: string := "service_not_running"
  const NoRootWindow: string := "no_root_window"
  const NoElements: string := "no_elements"

  /** What `getScreenElements` returns, given whether the service is connected and the active window's root. */
  function ScreenElements(connected: bool, root: Option<Node>): string {
    if !connected then NotRunning
    else if root.None? then NoRootWindow
    else
      var entries := Collect(root.value, 0);
      if entries == [] then NoElements else Join(RenderAll(entries), '\n')
  }

  lemma JoinStartsWithFirst(xs: seq<string>, sep: char)
    requires |xs| > 0 && |xs[0]| > 0
    ensures |Join(xs, sep)| > 0 && Join(xs, sep)[0] == xs[0][0]
  {
  }

  /**
   * The report is a sentinel exactly in the three failure cases; otherwise it
   * starts with '[' and splits on newlines back into the rendered entries,
   * one per line, when no label or class name holds a newline.
   */
  lemma ScreenElementsReport(connected: bool, root: Option<Node>)
    ensures var r := ScreenElements(connected, root);
      && (!connected <==> r == NotRunning)
      && (connected && root.None? <==> r == NoRootWindow)
      && (connected && root.Some? && Collect(root.value, 0) == [] <==> r == NoElements)
      && (connected && root.Some? && Collect(root.value, 0) != [] ==> |r| > 0 && r[0] == '[')
    ensures connected && root.Some? && Collect(root.value, 0) != []
            && (forall e :: e in Collect(root.value, 0) ==> LineSafe(e))
        ==> Split(ScreenElements(connected, root), '\n') == RenderAll(Collect(root.value, 0))
  {
    if connected && root.Some? && Collect(root.value, 0) != [] {
      var entries := Collect(root.value, 0);
      var lines := RenderAll(entries);
      JoinStartsWithFirst(lines, '\n');
      if forall e :: e in entries ==> LineSafe(e) {
        forall k | 0 <= k < |lines|
          ensures '\n' !in lines[k]
        {
          assert entries[k] in entries;
          RenderIsOneLine(entries[k]);
        }
        SplitJoin(lines, '\n');
      }
    }
  }

  /** A clickable button 100 x 40 at the origin: its centre, its text as the label, its short class name. */
  lemma EntryOfButton()
    ensures EntryOf(Node(Some("OK"), None, Some("android.widget.Button"), true, Rect(0, 0, 100, 40), []))
      == Entry(50, 20, true, "OK", "Button", Rect(0, 0, 100, 40))
  {
    AfterLastDotOfQualified("android.widget", "Button");
    assert "android.widget" + "." + "Button" == "android.widget.Button";
  }

  lemma {:induction false} RenderAllAppend(a: seq<Entry>, b: seq<Entry>)
    ensures RenderAll(a + b) == RenderAll(a) + RenderAll(b)
  {
    if a == [] {
      assert a + b == b;
    } else {
      SplitHead(a, b);
      RenderAllAppend(a[1..], b);
      AppendAssociative([Render(a[0])], RenderAll(a[1..]), RenderAll(b));
    }
  }

  // ---------------------------------------------------------------------
  // The imperative flattener and the service's companion state.

  /** The `MutableList<String>` the flattener appends rendered lines to. */
  class ElementList {
    var items: seq<string>

    constructor()
      ensures items == []
    {
      items := [];
    }

    method Add(line: string)
      modifies this`items
      ensures items == old(items) + [line]
    {
      items := items + [line];
    }
  }

  lemma OwnLine(node: Node)
    ensures RenderAll(EntryAt(node, [])) == if Emits(node) then [Render(EntryOf(node))] else []
  {
    assert At(node, []) == Some(node);
  }

  /** `collectElements`: appends to `list` the rendered entries of the walk from `node` at `depth`. */
  method CollectElements(node: Node, list: ElementList, depth: int)
    modifies list`items
    ensures list.items == old(list.items) + RenderAll(Collect(node, depth))
    decreases node, 2
  {
    if depth > MaxDepth {
      assert list.items == list.items + [];
      return;
    }
    OwnStep(list.items, node, depth);
    AddOwnLine(node, list);
    CollectChildren(node, list, depth + 1);
  }

  /** The loop of `collectElements` over the children, each collected at `depth`. */
  method CollectChildren(node: Node, list: ElementList, depth: int)
    modifies list`items
    ensures list.items == old(list.items) + RenderAll(CollectFrom(node, 0, depth))
    decreases node, 1
  {
    ghost var report := list.items + RenderAll(CollectFrom(node, 0, depth));
    for i := 0 to |node.children|
      invariant list.items + RenderAll(CollectFrom(node, i, depth)) == report
    {
      ChildStep(list.items, node, i, depth, report);
      CollectChildElements(node, i, list, depth);
    }
    assert list.items == list.items + [];
  }

  /** The node's own line, added when it has a label or is clickable. */
  method AddOwnLine(node: Node, list: ElementList)
    modifies list`items
    ensures list.items == old(list.items) + RenderAll(EntryAt(node, []))
  {
    OwnLine(node);
    if Emits(node) {
      list.Add(Render(EntryOf(node)));
    } else {
      assert list.items == list.items + [];
    }
  }

  /** The node's own line, if any, comes before the lines of its children. */
  lemma OwnStep(start: seq<string>, node: Node, depth: int)
    requires depth <= MaxDepth
    ensures (start + RenderAll(EntryAt(node, []))) + RenderAll(CollectFrom(node, 0, depth + 1))
      == start + RenderAll(Collect(node, depth))
  {
    CollectUnfold(node, depth);
    RenderAllAppend(EntryAt(node, []), CollectFrom(node, 0, depth + 1));
    AppendAssociative(start, RenderAll(EntryAt(node, [])), RenderAll(CollectFrom(node, 0, depth + 1)));
  }

  /** Collecting child `i` moves its lines from the pending part of the report to the list. */
  lemma ChildStep(done: seq<string>, node: Node, i: nat, depth: int, report: seq<string>)
    requires i < |node.children|
    requires done + RenderAll(CollectFrom(node, i, depth)) == report
    ensures (done + RenderAll(CollectChild(node, i, depth))) + RenderAll(CollectFrom(node, i + 1, depth)) == report
  {
    CollectFromUnfold(node, i, depth);
    RenderAllAppend(CollectChild(node, i, depth), CollectFrom(node, i + 1, depth));
    AppendAssociative(done, RenderAll(CollectChild(node, i, depth)), RenderAll(CollectFrom(node, i + 1, depth)));
  }

  /** The body of the loop over children: a missing child is skipped, a present one collected one level deeper. */
  method CollectChildElements(node: Node, i: nat, list: ElementList, depth: int)
    requires i < |node.children|
    modifies list`items
    ensures list.items == old(list.items) + RenderAll(CollectChild(node, i, depth))
    decreases node, 0
  {
    match node.children[i]
    case None =>
      assert list.items == list.items + [];
    case Some(child) =>
      CollectElements(child, list, depth);
  }

  /** An outcome of `dispatchGesture`: it was accepted, it returned false, or it threw with a message. */
  datatype Dispatch = Accepted | Rejected | Threw(message: string)

  datatype GlobalAction = Back | Home | Recents

  const NotRunningMessage: string := "服务未运行"
  const ConnectedMessage: string := "无障碍服务已启动"
  const RejectedMessage: string := "❌ dispatchGesture返回false"

  /** The status line a global action leaves, by action and by whether it was performed. */
  function ActionMessage(action: GlobalAction, performed: bool): string {
    match action
    case Back => if performed then "✅ 返回" else "❌ 返回失败"
    case Home => if performed then "✅ 主页" else "❌ 主页失败"
    case Recents => if performed then "✅ 最近任务" else "❌ 最近任务失败"
  }

  /** The status line names the action and tells success from failure. */
  lemma {:induction false} ActionMessageInjective(a: GlobalAction, x: bool, b: GlobalAction, y: bool)
    ensures ActionMessage(a, x) == ActionMessage(b, y) <==> a == b && x == y
    ensures ActionMessage(a, x)[0] == (if x then '✅' else '❌')
  {
    var m, n := ActionMessage(a, x), ActionMessage(b, y);
    if m == n {
      assert m[0] == n[0] && |m| == |n| && m[2] == n[2];
    }
  }

  /**
   * The companion object of TouchAccessibilityService. `instance` is whether a
   * connected service is registered; the commands consult it before touching
   * the platform, whose answers are parameters.
   */
  class TouchAccessibilityService {
    var instance: bool
    var lastResult: string
    var isRunning: bool

    /**
     * `isRunning` and `instance` are always set together, so the flag the rest
     * of the app reads agrees with the instance the commands consult.
     */
    predicate Valid()
      reads this
    {
      isRunning == instance
    }

    constructor()
      ensures Valid() && !instance && lastResult == ""
    {
      instance, lastResult, isRunning := false, "", false;
    }

    method OnServiceConnected()
      modifies this
      ensures Valid() && instance && lastResult == ConnectedMessage
    {
      instance := true;
      isRunning := true;
      lastResult := ConnectedMessage;
    }

    method OnDestroy()
      modifies this`instance, this`isRunning
      ensures Valid() && !instance
    {
      instance := false;
      isRunning := false;
    }

    /** `getScreenElements`, against the active window's root as the platform reports it. */
    method GetScreenElements(window: Option<Node>) returns (r: string)
      requires Valid()
      ensures r == ScreenElements(instance, window)
      ensures r == ScreenElements(isRunning, window)
    {
      if !instance {
        return NotRunning;
      }
      if window.None? {
        return NoRootWindow;
      }
      var list := new ElementList();
      CollectElements(window.value, list, 0);
      assert list.items == RenderAll(Collect(window.value, 0));
      if list.items == [] {
        r := NoElements;
      } else {
        r := Join(list.items, '\n');
      }
    }

    /** `tap`: refused with a status line when not connected; otherwise the dispatch decides. */
    method Tap(outcome: Dispatch) returns (ok: bool)
      requires Valid()
      modifies this`lastResult
      ensures Valid()
      ensures ok <==> instance && outcome == Accepted
      ensures ok ==> isRunning
      ensures !instance ==> lastResult == NotRunningMessage
      ensures instance && outcome == Accepted ==> lastResult == old(lastResult)
      ensures instance && outcome == Rejected ==> lastResult == RejectedMessage
      ensures instance && outcome.Threw? ==> lastResult == "❌ 点击失败: " + outcome.message
    {
      if !instance {
        lastResult := NotRunningMessage;
        return false;
      }
      match outcome
      case Accepted =>
        ok := true;
      case Rejected =>
        lastResult := RejectedMessage;
        ok := false;
      case Threw(message) =>
        lastResult := "❌ 点击失败: " + message;
        ok := false;
    }

    /** `swipe`: like `tap`, but a rejected dispatch leaves the status line alone. */
    method Swipe(outcome: Dispatch) returns (ok: bool)
      requires Valid()
      modifies this`lastResult
      ensures Valid()
      ensures ok <==> instance && outcome == Accepted
      ensures ok ==> isRunning
      ensures !instance ==> lastResult == NotRunningMessage
      ensures instance && !outcome.Threw? ==> lastResult == old(lastResult)
      ensures instance && outcome.Threw? ==> lastResult == "❌ 滑动失败: " + outcome.message
    {
      if !instance {
        lastResult := NotRunningMessage;
        return false;
      }
      match outcome
      case Accepted =>
        ok := true;
      case Rejected =>
        ok := false;
      case Threw(message) =>
        lastResult := "❌ 滑动失败: " + message;
        ok := false;
    }

    /** `pressBack`, `pressHome` and `pressRecents`: silently false when not connected. */
    method Press(action: GlobalAction, performed: bool) returns (ok: bool)
      requires Valid()
      modifies this`lastResult
      ensures Valid()
      ensures ok <==> instance && performed
      ensures ok ==> isRunning
      ensures !instance ==> lastResult == old(lastResult)
      ensures instance ==> lastResult == ActionMessage(action, performed)
    {
      if !instance {
        return false;
      }
      ok := performed;
      lastResult := ActionMessage(action, performed);
    }
  }
}
