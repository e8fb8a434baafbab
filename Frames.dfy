// The frame tree of a report and its two-pass layout protocol
// (src/ReportFrame.php, src/ContainerFrame.php, src/SerialFrame.php,
// src/BoxFrame.php, src/FixposFrame.php, src/PageFrame.php and the
// leaves' overrides): frames are sized for a rect (calcSize), then printed
// (print) or re-sized when the rect moved (rectChanged), page by page.
//
// The frames live in an arena: a frame is an index into `nodes`, and the
// children of a container are a list of indices, so a frame may be added
// to several containers, or to itself, as in the original.
module Frames {
  import opened Wrappers
  import opened Geometry
  import opened FrameBase
  import Canvas
  import Boxes
  import Lines
  import Pictures
  import Breaks
  import PageFrames
  import PageFormats
  import Texts
  import Tables
  import TableRows
  import TableLayout
  import Rendering
  import Styles
  import Pens

  /** The bound on the halving steps of trimText (which halves until the
      text fits; each step at least halves the change). */
  const TrimFuel: nat := 64

  /** The outcome of a layout step: done, or the exception that ends the report. */
  datatype Status = Done | Failed(error: Error)

  /** The variants of a frame with their own state. */
  datatype Kind =
    | Serial(direction: string)
    | Box(box: Boxes.BoxState)
    | Fixpos(offsetLeft: real, offsetTop: real, overlay: bool)
    | Page(onPageNr: int)
    | Text(text: Texts.TextState)
    | Line(line: Lines.LineState)
    | Image(image: Pictures.ImageState, probe: Canvas.ImageProbe)
    | Barcode(barcode: Pictures.BarcodeState)
    | Break(brk: Breaks.BreakState)
    | Table(table: Tables.TableState)

  /** A frame: the state every frame shares, the index of the current child
      (containers only) and the variant. */
  datatype Node = Node(base: Base, cursor: nat, kind: Kind)

  predicate IsContainer(k: Kind)
  {
    k.Serial? || k.Box? || k.Fixpos? || k.Page?
  }

  /** What layout never changes of a frame: how it is placed and limited,
      which variant it is with the variant's settings, and a table's rows. */
  datatype Settings = Settings(hAlignment: string, vAlignment: string, useFullWidth: bool, useFullHeight: bool,
                               marginLeft: real, marginTop: real, marginRight: real, marginBottom: real,
                               maxWidth: real, maxHeight: real, keepTogether: bool)

  datatype Variant =
    | SerialV(direction: string) | BoxV | FixposV(offsetLeft: real, offsetTop: real, overlay: bool)
    | PageV(onPageNr: int) | TextV | LineV | ImageV | BarcodeV | BreakV | TableV(tableData: seq<TableRows.TableRow>)

  function ShapeOf(n: Node): (s: (Settings, Variant))
    ensures s.1.SerialV? == n.kind.Serial? && s.1.BoxV? == n.kind.Box?
    ensures s.1.FixposV? == n.kind.Fixpos? && s.1.PageV? == n.kind.Page?
    ensures s.1.TableV? == n.kind.Table? && s.1.TextV? == n.kind.Text? && s.1.LineV? == n.kind.Line?
  {
    var b := n.base;
    (Settings(b.hAlignment, b.vAlignment, b.useFullWidth, b.useFullHeight,
              b.marginLeft, b.marginTop, b.marginRight, b.marginBottom, b.maxWidth, b.maxHeight, b.keepTogether),
     match n.kind
     case Serial(d) => SerialV(d)
     case Box(_) => BoxV
     case Fixpos(l, t, o) => FixposV(l, t, o)
     case Page(p) => PageV(p)
     case Text(_) => TextV
     case Line(_) => LineV
     case Image(_, _) => ImageV
     case Barcode(_) => BarcodeV
     case Break(_) => BreakV
     case Table(t) => TableV(t.tableData))
  }

  /** A table keeps its shape whatever happens to its paging state. */
  lemma TableShapeKept(n: Node, u: Tables.TableState)
    requires n.kind.Table? && u.tableData == n.kind.table.tableData
    ensures ShapeOf(n.(kind := Table(u))) == ShapeOf(n)
  {
  }

  function Shapes(ns: seq<Node>): (s: seq<(Settings, Variant)>)
  {
    seq(|ns|, j requires 0 <= j < |ns| => ShapeOf(ns[j]))
  }

  /** getSize, with the line's override: a line's size is taken from its points. */
  function NodeSize(n: Node): (s: Size)
    ensures n.kind.Line? ==> s == Lines.LineSize(n.kind.line)
    ensures !n.kind.Line? ==> s == GetSize(n.base)
  {
    if n.kind.Line? then Lines.LineSize(n.kind.line) else GetSize(n.base)
  }

  /** A frame whose only change is that it must be sized again. */
  function Unsized(n: Node): Node
  {
    n.(base := n.base.(sized := false))
  }

  /** A frame after reset: not started, sized, fitting nor continued; a
      table also measures its header again. */
  function Cleared(n: Node): Node
  {
    n.(base := FrameBase.Reset(n.base),
       kind := if n.kind.Table? then Table(Tables.TableReset(n.kind.table)) else n.kind)
  }

  /** Every frame of `b` is the one of `a`, or that one unsized. */
  ghost predicate OnlyUnsized(a: seq<Node>, b: seq<Node>)
  {
    |a| == |b| && forall j :: 0 <= j < |a| ==> b[j] == a[j] || b[j] == Unsized(a[j])
  }

  /** Every frame of `b` is the one of `a`, or that one reset. */
  ghost predicate OnlyCleared(a: seq<Node>, b: seq<Node>)
  {
    |a| == |b| && forall j :: 0 <= j < |a| ==> b[j] == a[j] || b[j] == Cleared(a[j])
  }

  /** Frame `i` and, down to `depth` levels, every frame below it must be sized again. */
  ghost predicate UnsizedBelow(ns: seq<Node>, fs: seq<seq<nat>>, i: nat, depth: nat)
    decreases depth
  {
    i < |ns| && !ns[i].base.sized
    && (depth > 0 && i < |fs| ==>
          forall k :: 0 <= k < |fs[i]| ==> UnsizedBelow(ns, fs, fs[i][k], depth - 1))
  }

  /** Frame `i` and, down to `depth` levels, every frame below it are reset. */
  ghost predicate ClearedBelow(ns: seq<Node>, fs: seq<seq<nat>>, i: nat, depth: nat)
    decreases depth
  {
    i < |ns| && ns[i] == Cleared(ns[i])
    && (depth > 0 && i < |fs| ==>
          forall k :: 0 <= k < |fs[i]| ==> ClearedBelow(ns, fs, fs[i][k], depth - 1))
  }

  lemma {:induction false} UnsizedStays(a: seq<Node>, b: seq<Node>, fs: seq<seq<nat>>, i: nat, depth: nat)
    requires OnlyUnsized(a, b) && UnsizedBelow(a, fs, i, depth)
    ensures UnsizedBelow(b, fs, i, depth)
    decreases depth
  {
    if depth > 0 && i < |fs| {
      forall k | 0 <= k < |fs[i]|
        ensures UnsizedBelow(b, fs, fs[i][k], depth - 1)
      {
        UnsizedStays(a, b, fs, fs[i][k], depth - 1);
      }
    }
  }

  lemma {:induction false} ClearedStays(a: seq<Node>, b: seq<Node>, fs: seq<seq<nat>>, i: nat, depth: nat)
    requires OnlyCleared(a, b) && ClearedBelow(a, fs, i, depth)
    ensures ClearedBelow(b, fs, i, depth)
    decreases depth
  {
    if depth > 0 && i < |fs| {
      forall k | 0 <= k < |fs[i]|
        ensures ClearedBelow(b, fs, fs[i][k], depth - 1)
      {
        ClearedStays(a, b, fs, fs[i][k], depth - 1);
      }
    }
  }

  /** What the first `k` children of `i` had, they keep. */
  lemma UnsizedPrefixStays(a: seq<Node>, b: seq<Node>, fs: seq<seq<nat>>, i: nat, k: nat, depth: nat)
    requires OnlyUnsized(a, b) && i < |fs| && k <= |fs[i]|
    requires forall m :: 0 <= m < k ==> UnsizedBelow(a, fs, fs[i][m], depth)
    ensures forall m :: 0 <= m < k ==> UnsizedBelow(b, fs, fs[i][m], depth)
  {
    forall m | 0 <= m < k
      ensures UnsizedBelow(b, fs, fs[i][m], depth)
    {
      UnsizedStays(a, b, fs, fs[i][m], depth);
    }
  }

  /** What the first `k` children of `i` had, they keep. */
  lemma ClearedPrefixStays(a: seq<Node>, b: seq<Node>, fs: seq<seq<nat>>, i: nat, k: nat, depth: nat)
    requires OnlyCleared(a, b) && i < |fs| && k <= |fs[i]|
    requires forall m :: 0 <= m < k ==> ClearedBelow(a, fs, fs[i][m], depth)
    ensures forall m :: 0 <= m < k ==> ClearedBelow(b, fs, fs[i][m], depth)
  {
    forall m | 0 <= m < k
      ensures ClearedBelow(b, fs, fs[i][m], depth)
    {
      ClearedStays(a, b, fs, fs[i][m], depth);
    }
  }

  lemma OnlyUnsizedTrans(a: seq<Node>, b: seq<Node>, c: seq<Node>)
    requires OnlyUnsized(a, b) && OnlyUnsized(b, c)
    ensures OnlyUnsized(a, c)
  {
    forall j | 0 <= j < |a| ensures c[j] == a[j] || c[j] == Unsized(a[j]) {
      assert c[j] == b[j] || c[j] == Unsized(b[j]);
    }
  }

  lemma OnlyClearedTrans(a: seq<Node>, b: seq<Node>, c: seq<Node>)
    requires OnlyCleared(a, b) && OnlyCleared(b, c)
    ensures OnlyCleared(a, c)
  {
    forall j | 0 <= j < |a| ensures c[j] == a[j] || c[j] == Cleared(a[j]) {
      assert c[j] == b[j] || c[j] == Cleared(b[j]);
    }
  }

  /** Frame `j` is `i`, or lies below one of its children, down to `depth` levels. */
  ghost predicate InReach(fs: seq<seq<nat>>, i: nat, depth: nat, j: nat)
    decreases depth
  {
    j == i || (depth > 0 && i < |fs| && exists k :: 0 <= k < |fs[i]| && InReach(fs, fs[i][k], depth - 1, j))
  }

  /** Frame `j` lies below one of the children of `i` from the `from`-th on. */
  ghost predicate InReachFrom(fs: seq<seq<nat>>, i: nat, from: nat, depth: nat, j: nat)
  {
    i < |fs| && exists k :: from <= k < |fs[i]| && InReach(fs, fs[i][k], depth, j)
  }

  /** Going from `a` to `b` changed only frame `i` and frames below it. */
  ghost predicate ChangedBelow(a: seq<Node>, b: seq<Node>, fs: seq<seq<nat>>, i: nat, depth: nat)
  {
    |a| == |b| && forall j :: 0 <= j < |a| && b[j] != a[j] ==> InReach(fs, i, depth, j)
  }

  /** Going from `a` to `b` changed only frames below the children of `i`
      from the `from`-th on. */
  ghost predicate ChangedFrom(a: seq<Node>, b: seq<Node>, fs: seq<seq<nat>>, i: nat, from: nat, depth: nat)
  {
    |a| == |b| && forall j :: 0 <= j < |a| && b[j] != a[j] ==> InReachFrom(fs, i, from, depth, j)
  }

  /** The children of `i` from the `from`-th on do not share frames: none
      lies below another, and `i` lies below none of them. This is what a
      report built as a tree has; the arena also allows other reports. */
  ghost predicate Separate(fs: seq<seq<nat>>, i: nat, from: nat, depth: nat)
  {
    i < |fs|
    && (forall k, m {:trigger InReach(fs, fs[i][m], depth, fs[i][k])} ::
          from <= k < |fs[i]| && from <= m < |fs[i]| && k != m ==> !InReach(fs, fs[i][m], depth, fs[i][k]))
    && (forall m {:trigger InReach(fs, fs[i][m], depth, i)} :: from <= m < |fs[i]| ==> !InReach(fs, fs[i][m], depth, i))
  }

  lemma ChangedBelowTrans(a: seq<Node>, b: seq<Node>, c: seq<Node>, fs: seq<seq<nat>>, i: nat, depth: nat)
    requires ChangedBelow(a, b, fs, i, depth) && ChangedBelow(b, c, fs, i, depth)
    ensures ChangedBelow(a, c, fs, i, depth)
  {
    forall j | 0 <= j < |a| && c[j] != a[j] ensures InReach(fs, i, depth, j) {
      if b[j] == a[j] {
        assert c[j] != b[j];
      }
    }
  }

  /** A change below a child is a change below the container, one level deeper. */
  lemma ChildChanged(a: seq<Node>, b: seq<Node>, c: seq<Node>, fs: seq<seq<nat>>, i: nat, k: nat, depth: nat)
    requires i < |fs| && k < |fs[i]|
    requires ChangedBelow(a, b, fs, i, depth + 1) && ChangedBelow(b, c, fs, fs[i][k], depth)
    ensures ChangedBelow(a, c, fs, i, depth + 1)
  {
    forall j | 0 <= j < |a| && c[j] != a[j] ensures InReach(fs, i, depth + 1, j) {
      if c[j] != b[j] {
        assert InReach(fs, fs[i][k], depth, j);
      }
    }
  }

  /** A change below a child from the `from`-th on. */
  lemma ChildChangedFrom(a: seq<Node>, b: seq<Node>, c: seq<Node>, fs: seq<seq<nat>>, i: nat, from: nat, k: nat, depth: nat)
    requires i < |fs| && from <= k < |fs[i]|
    requires ChangedFrom(a, b, fs, i, from, depth) && ChangedBelow(b, c, fs, fs[i][k], depth)
    ensures ChangedFrom(a, c, fs, i, from, depth)
  {
    forall j | 0 <= j < |a| && c[j] != a[j] ensures InReachFrom(fs, i, from, depth, j) {
      if c[j] != b[j] {
        assert InReach(fs, fs[i][k], depth, j);
      }
    }
  }

  /** A change below the children from `from` on is a change below them from
      any earlier one on. */
  lemma ChangedFromEarlier(a: seq<Node>, b: seq<Node>, fs: seq<seq<nat>>, i: nat, from: nat, later: nat, depth: nat)
    requires from <= later && ChangedFrom(a, b, fs, i, later, depth)
    ensures ChangedFrom(a, b, fs, i, from, depth)
  {
    forall j | 0 <= j < |a| && b[j] != a[j] ensures InReachFrom(fs, i, from, depth, j) {
      var k :| later <= k < |fs[i]| && InReach(fs, fs[i][k], depth, j);
    }
  }

  /** A change below the children is a change below the container, one level deeper. */
  lemma FromChanged(a: seq<Node>, b: seq<Node>, c: seq<Node>, fs: seq<seq<nat>>, i: nat, from: nat, depth: nat)
    requires ChangedBelow(a, b, fs, i, depth + 1) && ChangedFrom(b, c, fs, i, from, depth)
    ensures ChangedBelow(a, c, fs, i, depth + 1)
  {
    forall j | 0 <= j < |a| && c[j] != a[j] ensures InReach(fs, i, depth + 1, j) {
      if c[j] != b[j] {
        var k :| from <= k < |fs[i]| && InReach(fs, fs[i][k], depth, j);
      }
    }
  }

  /** What a change below the `k`-th of separate children keeps: the other
      children and the container. */
  lemma SeparateKept(a: seq<Node>, b: seq<Node>, fs: seq<seq<nat>>, i: nat, from: nat, k: nat, depth: nat)
    requires Separate(fs, i, from, depth) && from <= k < |fs[i]| && ChangedBelow(a, b, fs, fs[i][k], depth)
    ensures forall m :: from <= m < |fs[i]| && m != k && fs[i][m] < |a| ==> b[fs[i][m]] == a[fs[i][m]]
    ensures i < |a| ==> b[i] == a[i]
  {
  }

  /** What a change below the children from `cur` on keeps: the separate
      children before `cur` and the container. */
  lemma SeparateKeptFrom(a: seq<Node>, b: seq<Node>, fs: seq<seq<nat>>, i: nat, from: nat, cur: nat, depth: nat)
    requires Separate(fs, i, from, depth) && from <= cur && ChangedFrom(a, b, fs, i, cur, depth)
    ensures forall m :: from <= m < cur && m < |fs[i]| && fs[i][m] < |a| ==> b[fs[i][m]] == a[fs[i][m]]
    ensures i < |a| ==> b[i] == a[i]
  {
  }

  /** The sizes of the frames `cs` of `ns`, as getSize reads them. */
  function SizesOf(ns: seq<Node>, cs: seq<nat>): seq<Size>
  {
    seq(|cs|, m requires 0 <= m < |cs| => if cs[m] < |ns| then NodeSize(ns[cs[m]]) else ZeroSize)
  }

  /** Some of the frames `cs` of `ns` continues. */
  predicate AnyContinued(ns: seq<Node>, cs: seq<nat>)
  {
    exists m :: 0 <= m < |cs| && cs[m] < |ns| && ns[cs[m]].base.continued
  }

  /** `placed` are the sizes of the children of `i` from the `from`-th on,
      as many as there are sizes. */
  ghost predicate PlacedSizes(ns: seq<Node>, fs: seq<seq<nat>>, i: nat, from: nat, placed: seq<Size>)
  {
    i < |fs| && from + |placed| <= |fs[i]| && placed == SizesOf(ns, fs[i][from..from + |placed|])
  }

  /** Placing the child at `cur` of separate children keeps the sizes of
      those placed before, and adds its own when it fits. */
  lemma PlacedStep(a: seq<Node>, b: seq<Node>, fs: seq<seq<nat>>, i: nat, saved: nat, cur: nat, depth: nat,
                   placed: seq<Size>, fit: bool)
    requires Separate(fs, i, saved, depth) && saved <= cur < |fs[i]| && fs[i][cur] < |b|
    requires ChangedFrom(a, b, fs, i, cur, depth)
    requires |placed| == cur - saved && PlacedSizes(a, fs, i, saved, placed)
    ensures PlacedSizes(b, fs, i, saved, if fit then placed + [NodeSize(b[fs[i][cur]])] else placed)
  {
    SeparateKeptFrom(a, b, fs, i, saved, cur, depth);
    KidsKept(a, b, fs[i][saved..cur]);
    if fit {
      KidsAppend(b, fs[i], saved, cur);
    }
  }

  /** Setting the container keeps what its separate children read. */
  lemma PlacedSelf(a: seq<Node>, fs: seq<seq<nat>>, i: nat, from: nat, depth: nat, placed: seq<Size>, n: Node)
    requires Separate(fs, i, from, depth) && i < |a| && PlacedSizes(a, fs, i, from, placed)
    ensures PlacedSizes(a[i := n], fs, i, from, placed)
  {
    forall m | from <= m < from + |placed|
      ensures fs[i][m] != i
    {
      assert !InReach(fs, fs[i][m], depth, i);
    }
    KidsKept(a, a[i := n], fs[i][from..from + |placed|]);
  }

  /** Sizing the `k`-th of separate children after the `from`-th adds its width. */
  lemma TailStep(a: seq<Node>, b: seq<Node>, fs: seq<seq<nat>>, i: nat, from: nat, k: nat, depth: nat, delta: real)
    requires Separate(fs, i, from, depth) && from <= k < |fs[i]| && fs[i][k] < |b|
    requires ChangedBelow(a, b, fs, fs[i][k], depth) && delta == SumWidths(SizesOf(a, fs[i][from..k]))
    ensures delta + NodeSize(b[fs[i][k]]).width == SumWidths(SizesOf(b, fs[i][from..k + 1]))
  {
    SeparateKept(a, b, fs, i, from, k, depth);
    KidsKept(a, b, fs[i][from..k]);
    KidsAppend(b, fs[i], from, k);
    SumWidthsAppend(SizesOf(b, fs[i][from..k]), NodeSize(b[fs[i][k]]));
  }

  /** Placing the `cur`-th of separate children keeps what the later ones read. */
  lemma TailKept(a: seq<Node>, b: seq<Node>, fs: seq<seq<nat>>, i: nat, cur: nat, depth: nat)
    requires Separate(fs, i, cur, depth) && cur < |fs[i]| && ChangedBelow(a, b, fs, fs[i][cur], depth)
    ensures SizesOf(a, fs[i][cur + 1..]) == SizesOf(b, fs[i][cur + 1..])
  {
    SeparateKept(a, b, fs, i, cur, cur, depth);
    KidsKept(a, b, fs[i][cur + 1..]);
  }

  /** `req` is the largest size of the first `k` children of frame `i`, and
      `continued` tells whether one of them continues (when `whenContinued`). */
  ghost predicate SizedSoFar(ns: seq<Node>, fs: seq<seq<nat>>, i: nat, k: nat, req: Size, continued: bool, whenContinued: bool)
  {
    i < |fs| && k <= |fs[i]| && req == MaxAll(SizesOf(ns, fs[i][..k]))
    && continued == (whenContinued && AnyContinued(ns, fs[i][..k]))
  }

  /** Sizing the `k`-th of separate children: the largest size so far grows
      to hold it, and it continues or not. */
  lemma ChildStep(a: seq<Node>, b: seq<Node>, fs: seq<seq<nat>>, i: nat, k: nat, depth: nat,
                  req: Size, continued: bool, whenContinued: bool)
    requires Separate(fs, i, 0, depth) && k < |fs[i]| && fs[i][k] < |b| && i < |a|
    requires ChangedBelow(a, b, fs, fs[i][k], depth) && SizedSoFar(a, fs, i, k, req, continued, whenContinued)
    ensures b[i] == a[i]
    ensures SizedSoFar(b, fs, i, k + 1, MaxSize(req, NodeSize(b[fs[i][k]])),
                       if b[fs[i][k]].base.continued then whenContinued else continued, whenContinued)
  {
    SeparateKept(a, b, fs, i, 0, k, depth);
    KidsKept(a, b, fs[i][..k]);
    KidsPrefixAppend(b, fs[i], k);
    MaxAllAppend(SizesOf(b, fs[i][..k]), NodeSize(b[fs[i][k]]));
  }

  /** `m` with the container `i` marked continued (as `flag`) when its child
      `c` continues. */
  ghost function MarkContinued(m: seq<Node>, i: nat, c: nat, flag: bool): seq<Node>
    requires i < |m| && c < |m|
  {
    if m[c].base.continued then m[i := m[i].(base := m[i].base.(continued := flag))] else m
  }

  /** The container `i` has printed its first `k` children: it is `orig`,
      marked continued (as `flag`) when one of them continues. */
  ghost predicate PrintedSoFar(ns: seq<Node>, fs: seq<seq<nat>>, i: nat, k: nat, orig: Node, flag: bool)
  {
    i < |ns| && i < |fs| && k <= |fs[i]|
    && ns[i] == if AnyContinued(ns, fs[i][..k]) then orig.(base := orig.base.(continued := flag)) else orig
  }

  /** Printing the `k`-th of separate children, then marking the container
      when that child continues. */
  lemma PrintStep(a: seq<Node>, m: seq<Node>, fs: seq<seq<nat>>, i: nat, k: nat, depth: nat, orig: Node, flag: bool)
    requires Separate(fs, i, 0, depth) && k < |fs[i]| && fs[i][k] < |m| && i < |a|
    requires ChangedBelow(a, m, fs, fs[i][k], depth) && PrintedSoFar(a, fs, i, k, orig, flag)
    ensures PrintedSoFar(MarkContinued(m, i, fs[i][k], flag), fs, i, k + 1, orig, flag)
  {
    var b := MarkContinued(m, i, fs[i][k], flag);
    SeparateKept(a, m, fs, i, 0, k, depth);
    KidsKept(a, m, fs[i][..k]);
    forall j | 0 <= j <= k
      ensures fs[i][j] != i
    {
      assert !InReach(fs, fs[i][j], depth, i);
    }
    KidsKept(m, b, fs[i][..k + 1]);
    KidsPrefixAppend(b, fs[i], k);
  }

  /** Frames not changed read the same. */
  lemma KidsKept(a: seq<Node>, b: seq<Node>, cs: seq<nat>)
    requires |a| == |b| && forall m :: 0 <= m < |cs| && cs[m] < |a| ==> b[cs[m]] == a[cs[m]]
    ensures SizesOf(a, cs) == SizesOf(b, cs) && AnyContinued(a, cs) == AnyContinued(b, cs)
  {
    if AnyContinued(a, cs) {
      var m :| 0 <= m < |cs| && cs[m] < |a| && a[cs[m]].base.continued;
      assert b[cs[m]].base.continued;
    }
    if AnyContinued(b, cs) {
      var m :| 0 <= m < |cs| && cs[m] < |b| && b[cs[m]].base.continued;
      assert a[cs[m]].base.continued;
    }
  }

  /** One more frame read after the others. */
  lemma KidsAppend(ns: seq<Node>, cs: seq<nat>, lo: nat, hi: nat)
    requires lo <= hi < |cs| && cs[hi] < |ns|
    ensures SizesOf(ns, cs[lo..hi + 1]) == SizesOf(ns, cs[lo..hi]) + [NodeSize(ns[cs[hi]])]
    ensures AnyContinued(ns, cs[lo..hi + 1]) == (AnyContinued(ns, cs[lo..hi]) || ns[cs[hi]].base.continued)
  {
    var before, after := cs[lo..hi], cs[lo..hi + 1];
    assert after == before + [cs[hi]];
    assert SizesOf(ns, after) == SizesOf(ns, before) + [NodeSize(ns[cs[hi]])];
    if AnyContinued(ns, after) && !ns[cs[hi]].base.continued {
      var m :| 0 <= m < |after| && after[m] < |ns| && ns[after[m]].base.continued;
      assert before[m] == after[m];
    }
    if AnyContinued(ns, before) {
      var m :| 0 <= m < |before| && before[m] < |ns| && ns[before[m]].base.continued;
      assert after[m] == before[m];
    }
    if ns[cs[hi]].base.continued {
      assert after[|before|] == cs[hi];
    }
  }

  /** One more of the first frames read after the others. */
  lemma KidsPrefixAppend(ns: seq<Node>, cs: seq<nat>, k: nat)
    requires k < |cs| && cs[k] < |ns|
    ensures SizesOf(ns, cs[..k + 1]) == SizesOf(ns, cs[..k]) + [NodeSize(ns[cs[k]])]
    ensures AnyContinued(ns, cs[..k + 1]) == (AnyContinued(ns, cs[..k]) || ns[cs[k]].base.continued)
  {
    assert cs[0..k + 1] == cs[..k + 1] && cs[0..k] == cs[..k];
    KidsAppend(ns, cs, 0, k);
  }

  /** The largest of sizes, extent by extent: nothing when there are none. */
  function MaxAll(sizes: seq<Size>): Size
    decreases |sizes|
  {
    if |sizes| == 0 then ZeroSize else MaxSize(MaxAll(sizes[..|sizes| - 1]), sizes[|sizes| - 1])
  }

  /** The largest of the sizes holds each of them, and each of its extents is
      one of theirs (or zero, for no sizes). */
  lemma {:induction false} MaxAllBounds(sizes: seq<Size>)
    ensures forall k :: 0 <= k < |sizes| ==> sizes[k].width <= MaxAll(sizes).width && sizes[k].height <= MaxAll(sizes).height
    ensures MaxAll(sizes).width == 0.0 || exists k :: 0 <= k < |sizes| && MaxAll(sizes).width == sizes[k].width
    ensures MaxAll(sizes).height == 0.0 || exists k :: 0 <= k < |sizes| && MaxAll(sizes).height == sizes[k].height
    decreases |sizes|
  {
    if |sizes| > 0 {
      var prev := sizes[..|sizes| - 1];
      MaxAllBounds(prev);
      assert forall k :: 0 <= k < |sizes| - 1 ==> prev[k] == sizes[k];
    }
  }

  /** The largest of one more size. */
  lemma MaxAllAppend(sizes: seq<Size>, s: Size)
    ensures MaxAll(sizes + [s]) == MaxSize(MaxAll(sizes), s)
  {
    assert (sizes + [s])[..|sizes|] == sizes;
  }

  /** beginPrint of one frame: the first call after a reset runs the
      variant's doBeginPrint and marks the frame started; later calls change
      nothing. A series restarts at its first child, a text at its first
      character, a page break is armed, a table goes back to its first row,
      and an image reads its file's dimensions, failing when the file is
      missing or not an image (and then the frame is not started). */
  function BeginNode(n: Node): (r: Result<Node>)
    ensures n.base.startedPrinting ==> r == Ok(n)
    ensures r.Ok? ==> r.value.base == n.base.(startedPrinting := true) && ShapeOf(r.value) == ShapeOf(n)
    ensures r.Ok? && !n.base.startedPrinting && n.kind.Table? ==> Tables.Valid(r.value.kind.table)
    ensures r.Err? <==> !n.base.startedPrinting && n.kind.Image? && !n.kind.probe.Dimensions?
    ensures r.Err? ==> r.error == (if n.kind.probe.NoFile? then ImageMissing else ImageInvalid)
    ensures !n.base.startedPrinting && n.kind.Serial? ==> r.Ok? && r.value.cursor == 0
    ensures !n.base.startedPrinting && n.kind.Text? ==> r.Ok? && r.value.kind.text.charIndex == 0
    ensures !n.base.startedPrinting && n.kind.Break? ==> r.Ok? && r.value.kind.brk.firstTimeCalled
    ensures r.Ok? && !n.kind.Serial? ==> r.value.cursor == n.cursor
  {
    if n.base.startedPrinting then Ok(n) else StartNode(n)
  }

  /** beginPrint of a frame not started yet. */
  function StartNode(n: Node): (r: Result<Node>)
    ensures r.Ok? ==> r.value.base == n.base.(startedPrinting := true) && ShapeOf(r.value) == ShapeOf(n)
    ensures r.Ok? && n.kind.Table? ==> Tables.Valid(r.value.kind.table)
    ensures r.Err? <==> n.kind.Image? && !n.kind.probe.Dimensions?
    ensures r.Err? ==> r.error == (if n.kind.probe.NoFile? then ImageMissing else ImageInvalid)
    ensures n.kind.Serial? ==> r.Ok? && r.value.cursor == 0
    ensures n.kind.Text? ==> r.Ok? && r.value.kind.text.charIndex == 0
    ensures n.kind.Break? ==> r.Ok? && r.value.kind.brk.firstTimeCalled
    ensures r.Ok? && !n.kind.Serial? ==> r.value.cursor == n.cursor
  {
    var started := n.base.(startedPrinting := true);
    match n.kind
    case Serial(_) => Ok(n.(base := started, cursor := 0))
    case Text(t) => Ok(n.(base := started, kind := Text(Texts.TextBeginPrint(t))))
    case Image(image, probe) =>
      var probed :- Pictures.ImageBeginPrint(image, probe);
      Ok(n.(base := started, kind := Image(probed, probe)))
    case Break(b) => Ok(n.(base := started, kind := Break(Breaks.BreakBeginPrint(b))))
    case Table(t) => Ok(n.(base := started, kind := Table(Tables.TableBeginPrint(t))))
    case _ => Ok(n.(base := started))
  }

  /** A started frame stays as it is under beginPrint until it is reset,
      and a reset one begins again. */
  lemma BeginOnce(n: Node)
    requires BeginNode(n).Ok?
    ensures BeginNode(BeginNode(n).value) == BeginNode(n)
    ensures !Cleared(BeginNode(n).value).base.startedPrinting
  {
  }


  /** The leaves that measure themselves without the renderer. */
  predicate IsMeasured(k: Kind)
  {
    k.Line? || k.Image? || k.Barcode? || k.Break?
  }

  /** doCalcSize of a line, an image, a barcode or a page break in `rect`
      on page `page`: only the leaf's own state changes; only an image or a
      barcode can fail (when it cannot be scaled), and only a break names a
      page format to register (for the page after `page`). */
  function MeasureLeaf(n: Node, rect: Rect, page: int): (r: Result<(Node, SizeState, Option<(int, PageFormats.PageFormat)>)>)
    requires IsMeasured(n.kind)
    ensures r.Ok? ==> ShapeOf(r.value.0) == ShapeOf(n) && r.value.0.base == n.base && r.value.0.cursor == n.cursor
    ensures r.Err? ==> n.kind.Image? || n.kind.Barcode?
    ensures r.Ok? && r.value.2.Some? ==> n.kind.Break? && r.value.2.value.0 == page + 1
    ensures n.kind.Line? ==>
      r.Ok? && r.value.0.kind.Line?
      && (r.value.0.kind.line, r.value.1) == Lines.LineCalcSize(n.kind.line, n.base.hAlignment, n.base.vAlignment, rect)
    ensures n.kind.Break? ==> r.Ok? && r.value.1.fits
  {
    var b := n.base;
    match n.kind
    case Line(l) =>
      var res := Lines.LineCalcSize(l, b.hAlignment, b.vAlignment, rect);
      Ok((n.(kind := Line(res.0)), res.1, None))
    case Image(image, probe) =>
      var res :- Pictures.ImageCalcSize(image, b.hAlignment, b.vAlignment, rect);
      Ok((n.(kind := Image(res.0, probe)), res.1, None))
    case Barcode(bc) =>
      var res :- Pictures.BarcodeCalcSize(bc, b.hAlignment, b.vAlignment, rect);
      Ok((n.(kind := Barcode(res.0)), res.1, None))
    case Break(brk) =>
      var res := Breaks.BreakCalcSize(brk, page, rect);
      Ok((n.(kind := Break(res.0)), res.1, res.2))
  }

  /** The size a frame took in its last calcSize keeps to the rect it was
      sized for and to its limits, and a keep-together frame that continues
      does not fit. */
  ghost predicate SizedWithin(b: Base, rect: Rect)
  {
    b.sized && b.size.Some?
    && b.size.value.width <= Width(rect) && b.size.value.height <= Height(rect)
    && (b.maxWidth > 0.0 ==> b.size.value.width <= b.maxWidth)
    && (b.maxHeight > 0.0 ==> b.size.value.height <= b.maxHeight)
    && (b.keepTogether && b.continued ==> !b.fits)
  }

  /** rectChanged of one frame, re-placed from `originalRect` into
      `newRect` after it was sized: a box lays out its border around its own
      size again, a line sets its points for the new rect, a text must be
      sized again unless its anchor corner stayed and its required size still
      fits, and an image or a barcode is scaled again (which may fail). All
      but the last two keep the outcome of their last sizing. */
  function RectChanged(n: Node, parentBounds: Option<Rect>, originalRect: Rect, newRect: Rect): (r: Result<(Node, SizeState)>)
    ensures r.Ok? ==> ShapeOf(r.value.0) == ShapeOf(n) && r.value.0.cursor == n.cursor
    ensures r.Ok? && n.kind.Table? ==> r.value.0.kind == n.kind
    ensures r.Err? ==> n.kind.Image? || n.kind.Barcode?
    ensures !n.kind.Image? && !n.kind.Barcode? ==> r.Ok? && r.value.1 == StoredState(n.base)
    ensures n.kind.Text? ==> r.Ok? && r.value.0 == n.(base := n.base.(sized := n.base.sized && !Texts.MustResize(n.base, originalRect, newRect)))
    ensures !n.kind.Text? && r.Ok? ==> r.value.0.base == n.base
  {
    var b := n.base;
    match n.kind
    case Box(bx) =>
      var res := Boxes.BoxRectChanged(bx, b, newRect, parentBounds);
      Ok((n.(kind := Box(res.0)), res.1))
    case Line(l) =>
      Ok((n.(kind := Line(Lines.SetLinePoints(l, b.hAlignment, b.vAlignment, newRect))), StoredState(b)))
    case Text(_) =>
      var resized := if Texts.MustResize(b, originalRect, newRect) then n.(base := b.(sized := false)) else n;
      Ok((resized, StoredState(b)))
    case Image(image, probe) =>
      var res :- Pictures.ImageCalcSize(image, b.hAlignment, b.vAlignment, newRect);
      Ok((n.(kind := Image(res.0, probe)), res.1))
    case Barcode(bc) =>
      var res :- Pictures.BarcodeCalcSize(bc, b.hAlignment, b.vAlignment, newRect);
      Ok((n.(kind := Barcode(res.0)), res.1))
    case _ => Ok((n, StoredState(b)))
  }

  /** The rect a series prints its children into: its required extent from
      the top left of `inRect`, or all of `inRect` along a full extent. */
  function SerialPrintRect(b: Base, inRect: Rect): (r: Rect)
    ensures r.left == inRect.left && r.top == inRect.top
    ensures Width(r) == (if b.useFullWidth then Width(inRect) else b.requiredSize.width)
    ensures Height(r) == (if b.useFullHeight then Height(inRect) else b.requiredSize.height)
  {
    inRect.(right := if b.useFullWidth then inRect.right else inRect.left + b.requiredSize.width,
            bottom := if b.useFullHeight then inRect.bottom else inRect.top + b.requiredSize.height)
  }

  /** The larger of two sizes, extent by extent. */
  function MaxSize(a: Size, b: Size): (s: Size)
    ensures s.width >= a.width && s.width >= b.width && (s.width == a.width || s.width == b.width)
    ensures s.height >= a.height && s.height >= b.height && (s.height == a.height || s.height == b.height)
  {
    Size(Max(a.width, b.width), Max(a.height, b.height))
  }

  /** The printable area of the current page. */
  ghost predicate IsPageBounds(rd: Rendering.Renderer, r: Rect)
    reads rd
  {
    forall k :: Rendering.IsFloorKey(rd.pageFormats, rd.currentPage, k) ==>
      r == Rendering.BoundsOf(rd.pageFormats[k], Rendering.PaperSize(rd.metrics.paperFormat, rd.pageFormats[k]), rd.currentPage)
  }

  /** The advance of sizePrintFrames (SerialFrame.php): after a child of `size` was placed, a vertical
      container moves the rect's top down and adds the height, a horizontal
      one moves the left edge right and adds the width; the other extent is
      the largest so far. Any other direction changes nothing. */
  function Advance(direction: string, size: Size, rect: Rect, required: Size): (r: (Rect, Size))
    ensures direction == "V" ==>
      r.0 == rect.(top := rect.top + size.height)
      && r.1 == Size(Max(required.width, size.width), required.height + size.height)
    ensures direction == "H" ==>
      r.0 == rect.(left := rect.left + size.width)
      && r.1 == Size(required.width + size.width, Max(required.height, size.height))
    ensures direction != "V" && direction != "H" ==> r == (rect, required)
  {
    if direction == "V" then
      (rect.(top := rect.top + size.height), Size(Max(required.width, size.width), required.height + size.height))
    else if direction == "H" then
      (rect.(left := rect.left + size.width), Size(required.width + size.width, Max(required.height, size.height)))
    else (rect, required)
  }

  /** The children placed one after another in a vertical container take
      the sum of their heights and the widest width, and the rect's top moves
      down by that sum. */
  function AdvanceAll(direction: string, sizes: seq<Size>, rect: Rect, required: Size): (r: (Rect, Size))
    decreases |sizes|
  {
    if |sizes| == 0 then (rect, required)
    else
      var prev := AdvanceAll(direction, sizes[..|sizes| - 1], rect, required);
      Advance(direction, sizes[|sizes| - 1], prev.0, prev.1)
  }

  /** Placing one more child in a rect narrowed by `delta` and widening
      it again afterwards is what placing all of them does. */
  lemma AdvancePlaced(direction: string, placed: seq<Size>, size: Size, inRect: Rect, delta: real)
    ensures var prev := AdvanceAll(direction, placed, inRect, ZeroSize);
      var moved := Advance(direction, size, prev.0.(right := prev.0.right - delta), prev.1);
      AdvanceAll(direction, placed + [size], inRect, ZeroSize) == (moved.0.(right := moved.0.right + delta), moved.1)
  {
    var all := placed + [size];
    assert all[..|all| - 1] == placed;
    var prev := AdvanceAll(direction, placed, inRect, ZeroSize);
    assert AdvanceAll(direction, all, inRect, ZeroSize) == Advance(direction, size, prev.0, prev.1);
    var narrowed := prev.0.(right := prev.0.right - delta);
    var moved := Advance(direction, size, narrowed, prev.1);
    if direction == "V" {
      assert moved.0.(right := moved.0.right + delta) == prev.0.(top := prev.0.top + size.height);
    } else if direction == "H" {
      assert moved.0.(right := moved.0.right + delta) == prev.0.(left := prev.0.left + size.width);
    } else {
      assert moved.0.(right := moved.0.right + delta) == prev.0;
    }
  }

  function SumHeights(sizes: seq<Size>): real
    decreases |sizes|
  {
    if |sizes| == 0 then 0.0 else SumHeights(sizes[..|sizes| - 1]) + sizes[|sizes| - 1].height
  }

  function SumWidths(sizes: seq<Size>): real
    decreases |sizes|
  {
    if |sizes| == 0 then 0.0 else SumWidths(sizes[..|sizes| - 1]) + sizes[|sizes| - 1].width
  }

  lemma SumWidthsAppend(sizes: seq<Size>, s: Size)
    ensures SumWidths(sizes + [s]) == SumWidths(sizes) + s.width
  {
    assert (sizes + [s])[..|sizes|] == sizes;
  }

  lemma {:induction false} AdvanceAllVertical(sizes: seq<Size>, rect: Rect)
    ensures AdvanceAll("V", sizes, rect, ZeroSize).0 == rect.(top := rect.top + SumHeights(sizes))
    ensures AdvanceAll("V", sizes, rect, ZeroSize).1.height == SumHeights(sizes)
    ensures forall k :: 0 <= k < |sizes| ==> sizes[k].width <= AdvanceAll("V", sizes, rect, ZeroSize).1.width
    decreases |sizes|
  {
    if |sizes| > 0 {
      AdvanceAllVertical(sizes[..|sizes| - 1], rect);
    }
  }

  lemma {:induction false} AdvanceAllHorizontal(sizes: seq<Size>, rect: Rect)
    ensures AdvanceAll("H", sizes, rect, ZeroSize).0 == rect.(left := rect.left + SumWidths(sizes))
    ensures AdvanceAll("H", sizes, rect, ZeroSize).1.width == SumWidths(sizes)
    ensures forall k :: 0 <= k < |sizes| ==> sizes[k].height <= AdvanceAll("H", sizes, rect, ZeroSize).1.height
    decreases |sizes|
  {
    if |sizes| > 0 {
      AdvanceAllHorizontal(sizes[..|sizes| - 1], rect);
    }
  }

  /** The widening at the end of a fixed-position frame's doCalcSize: the
      required extent is grown to reach from the top (left) of the rect it
      was sized for to the end of its contents at the offset, when that is
      more. */
  function FixposWiden(offsetLeft: real, offsetTop: real, oldRect: Rect, required: Size): (s: Size)
    ensures s.height == Max(required.height, offsetTop + required.height - oldRect.top)
    ensures s.width == Max(required.width, offsetLeft + required.width - oldRect.left)
  {
    var h := if offsetTop + required.height - oldRect.top > required.height
      then offsetTop + required.height - oldRect.top else required.height;
    var w := if offsetLeft + required.width - oldRect.left > required.width
      then offsetLeft + required.width - oldRect.left else required.width;
    Size(w, h)
  }

  /** The probe of the printable area a fixed-position frame makes before it
      sizes its children, as written: the top offset is compared with the
      area's left edge and the left offset with its top edge. */
  predicate OutsideAsWritten(offsetLeft: real, offsetTop: real, pageBounds: Rect)
  {
    offsetTop < pageBounds.left || offsetLeft < pageBounds.top
  }

  /** The probe as evidently intended: each offset against its own edge. */
  predicate Outside(offsetLeft: real, offsetTop: real, pageBounds: Rect)
  {
    offsetLeft < pageBounds.left || offsetTop < pageBounds.top
  }

  /** A frame placed inside the printable area, below its top and to the
      right of its left edge, passes the intended probe but is refused by the
      written one whenever the area's margins differ enough: 25 mm from the
      left and 15 mm from the top of an area starting at (20, 10) are refused
      because 15 < 20. */
  lemma FixposProbeSwapped()
    ensures !Outside(25.0, 15.0, Rect(20.0, 10.0, 200.0, 287.0))
    ensures OutsideAsWritten(25.0, 15.0, Rect(20.0, 10.0, 200.0, 287.0))
  {
  }

  /** The two probes agree when the area starts as far from the left as
      from the top and the frame is placed on the diagonal. */
  lemma ProbesAgreeOnDiagonal(offset: real, pageBounds: Rect)
    requires pageBounds.left == pageBounds.top
    ensures Outside(offset, offset, pageBounds) == OutsideAsWritten(offset, offset, pageBounds)
  {
  }

  /** The frames of a report: the frame states, each frame's children and
      the container each was last added to. */
  class Layout {
    var nodes: seq<Node>
    var frames: seq<seq<nat>>
    var parent: seq<Option<nat>>
    /** The y position a table continuing on the next page measures from. */
    var saveY: real
    /** The table rows the layout may change. */
    ghost var rows: set<TableRows.TableRow>

    ghost predicate Valid()
      reads this
    {
      |frames| == |nodes| && |parent| == |nodes|
      && (forall j, k :: 0 <= j < |frames| && 0 <= k < |frames[j]| ==> frames[j][k] < |nodes|)
      && (forall j :: 0 <= j < |parent| && parent[j].Some? ==> parent[j].value < |nodes|)
      && (forall j :: 0 <= j < |nodes| && !IsContainer(nodes[j].kind) ==> frames[j] == [])
      && (forall j :: 0 <= j < |nodes| && nodes[j].kind.Table? ==>
            Tables.Valid(nodes[j].kind.table) && TableLayout.DataRows(nodes[j].kind.table) <= rows)
    }

    /** What a layout step keeps: the tree, the rows, the settings of every
      frame, the page counters; it only adds to what was drawn. */
    twostate predicate Kept(rd: Rendering.Renderer)
      reads this, rd
    {
      frames == old(frames) && parent == old(parent) && rows == old(rows)
      && Shapes(nodes) == Shapes(old(nodes))
      && rd.currentPage == old(rd.currentPage) && rd.totalPages == old(rd.totalPages)
      && rd.pagesCounted == old(rd.pagesCounted) && old(rd.log) <= rd.log
    }

    constructor ()
      ensures Valid() && nodes == [] && frames == [] && parent == [] && saveY == 0.0 && rows == {}
    {
      nodes, frames, parent, saveY := [], [], [], 0.0;
      rows := {};
    }

    /** A new frame, in no container yet; its index is returned. */
    method NewFrame(base: Base, kind: Kind) returns (i: nat)
      requires Valid()
      requires kind.Table? ==> Tables.Valid(kind.table)
      modifies this
      ensures Valid() && i == |old(nodes)|
      ensures nodes == old(nodes) + [Node(base, 0, kind)]
      ensures frames == old(frames) + [[]] && parent == old(parent) + [None] && saveY == old(saveY)
      ensures rows == old(rows) + (if kind.Table? then TableLayout.DataRows(kind.table) else {})
    {
      i := |nodes|;
      nodes := nodes + [Node(base, 0, kind)];
      frames := frames + [[]];
      parent := parent + [None];
      if kind.Table? {
        rows := rows + TableLayout.DataRows(kind.table);
      }
    }

    /** addFrame: a frame joins the end of a container's children and the
        container becomes its parent; the new count is returned. A box holds
        one frame: adding one replaces the one it had, and the box is not
        recorded as the parent. */
    method AddFrame(i: nat, child: nat) returns (count: nat)
      requires Valid() && i < |nodes| && child < |nodes| && IsContainer(nodes[i].kind)
      modifies this`frames, this`parent
      ensures Valid()
      ensures nodes[i].kind.Box? ==>
        frames == old(frames)[i := [child]] && parent == old(parent) && count == 1
      ensures !nodes[i].kind.Box? ==>
        frames == old(frames)[i := old(frames[i]) + [child]] && parent == old(parent)[child := Some(i)]
        && count == |old(frames[i])| + 1
    {
      if nodes[i].kind.Box? {
        var r := Boxes.BoxAddFrame(frames[i], child);
        frames := frames[i := r.0];
        count := r.1;
      } else {
        parent := parent[child := Some(i)];
        frames := frames[i := frames[i] + [child]];
        count := |frames[i]|;
      }
    }

    /** removeFrame: the child at `index` leaves and the later ones move up;
        an index past the end (or before the start) changes nothing. */
    method RemoveFrame(i: nat, index: int)
      requires Valid() && i < |nodes|
      modifies this`frames
      ensures Valid()
      ensures 0 <= index < |old(frames[i])| ==>
        frames == old(frames)[i := old(frames[i])[..index] + old(frames[i])[index + 1..]]
      ensures !(0 <= index < |old(frames[i])|) ==> frames == old(frames)
    {
      if 0 <= index < |frames[i]| {
        ghost var f := frames[i];
        frames := frames[i := frames[i][..index] + frames[i][index + 1..]];
        assert forall k :: 0 <= k < |frames[i]| ==> frames[i][k] in f;
      }
    }

    /** clearFrames: a container without children. */
    method ClearFrames(i: nat)
      requires Valid() && i < |nodes|
      modifies this`frames
      ensures Valid() && frames == old(frames)[i := []]
    {
      frames := frames[i := []];
    }

    /** getFrame: the child at `index`, or none past the end. */
    function GetFrame(i: nat, index: int): (r: Option<nat>)
      requires Valid() && i < |nodes|
      reads this
      ensures r.Some? <==> 0 <= index < |frames[i]|
      ensures r.Some? ==> r.value == frames[i][index] && r.value < |nodes|
    {
      if 0 <= index < |frames[i]| then Some(frames[i][index]) else None
    }

    /** getCurrentFrame: the child at the cursor, or none once the cursor is past the end. */
    function CurrentFrame(i: nat): (r: Option<nat>)
      requires Valid() && i < |nodes|
      reads this
      ensures r.Some? <==> nodes[i].cursor < |frames[i]|
      ensures r.Some? ==> r.value == frames[i][nodes[i].cursor] && r.value < |nodes|
    {
      GetFrame(i, nodes[i].cursor)
    }

    /** The sizing bounds of the container a frame was added to, when there is one. */
    function ParentBounds(i: nat): (r: Option<Rect>)
      requires Valid() && i < |nodes|
      reads this
      ensures parent[i].None? <==> r.None?
      ensures parent[i].Some? ==> r == Some(GetSizingBounds(nodes[parent[i].value].base))
    {
      if parent[i].Some? then Some(GetSizingBounds(nodes[parent[i].value].base)) else None
    }

    /** The children of the arena a walk has not met yet. */
    ghost function Unvisited(list: seq<nat>): set<nat>
      reads this
    {
      (set j, k | 0 <= j < |frames| && 0 <= k < |frames[j]| :: frames[j][k]) - (set x | x in list)
    }

    /** isEndless: walking a container's children in order, a child already
        in `list` (the frames met on the way down, and the earlier siblings)
        makes the report endless; otherwise the child joins the list and is
        walked in turn. A leaf is never endless. The list only grows with
        frames it does not hold, so the walk ends. */
    function Endless(i: nat, list: seq<nat>): bool
      requires Valid() && i < |nodes|
      reads this
      decreases Unvisited(list), 1, 0
    {
      if IsContainer(nodes[i].kind) then EndlessFrom(i, 0, list) else false
    }

    function EndlessFrom(i: nat, k: nat, list: seq<nat>): bool
      requires Valid() && i < |nodes| && k <= |frames[i]|
      reads this
      decreases Unvisited(list), 0, |frames[i]| - k
    {
      if k == |frames[i]| then false
      else
        var c := frames[i][k];
        if c in list then true
        else
          var more := list + [c];
          assert c in Unvisited(list) - Unvisited(more);
          Endless(c, more) || EndlessFrom(i, k + 1, more)
    }

    /** A child that repeats a frame of the list or an earlier sibling makes
        the walk from any earlier child report an endless report. */
    lemma {:induction false} RepeatIsEndless(i: nat, k: nat, list: seq<nat>, b: nat)
      requires Valid() && i < |nodes| && k <= b < |frames[i]|
      requires frames[i][b] in list || exists a :: k <= a < b && frames[i][a] == frames[i][b]
      ensures EndlessFrom(i, k, list)
      decreases b - k
    {
      var c := frames[i][k];
      if c !in list {
        var more := list + [c];
        if b == k {
          assert false;
        }
        if !Endless(c, more) {
          if frames[i][b] !in list {
            var a :| k <= a < b && frames[i][a] == frames[i][b];
            if a == k {
              assert frames[i][b] in more;
            } else {
              assert k + 1 <= a < b && frames[i][a] == frames[i][b];
            }
          } else {
            assert frames[i][b] in more;
          }
          RepeatIsEndless(i, k + 1, more, b);
        }
      }
    }

    /** A container that holds the same frame twice is endless. */
    lemma DuplicateChildIsEndless(i: nat, a: nat, b: nat)
      requires Valid() && i < |nodes| && IsContainer(nodes[i].kind)
      requires a < b < |frames[i]| && frames[i][a] == frames[i][b]
      ensures Endless(i, [])
    {
      RepeatIsEndless(i, 0, [], b);
    }

    /** A container in its own children is endless. */
    lemma {:induction false} SelfContainingIsEndless(i: nat, b: nat)
      requires Valid() && i < |nodes| && IsContainer(nodes[i].kind)
      requires b < |frames[i]| && frames[i][b] == i
      ensures Endless(i, [])
    {
      SelfEndlessFrom(i, 0, [], b);
    }

    /** Walking the children of `i` from `k`, with the earlier siblings in the
        list, reaches `i` itself, whose walk meets its first child again. */
    lemma {:induction false} SelfEndlessFrom(i: nat, k: nat, list: seq<nat>, b: nat)
      requires Valid() && i < |nodes| && IsContainer(nodes[i].kind) && k <= b < |frames[i]| && frames[i][b] == i
      requires forall a :: 0 <= a < k ==> frames[i][a] in list
      ensures EndlessFrom(i, k, list)
      decreases b - k
    {
      var c := frames[i][k];
      if c !in list {
        var more := list + [c];
        if k == b {
          // the walk of `i` with `i` in the list meets its first child, which
          // is in the list already or is `i` itself
          assert c == i;
          assert frames[i][0] in more;
          assert EndlessFrom(i, 0, more);
          assert Endless(c, more);
        } else if !Endless(c, more) {
          SelfEndlessFrom(i, k + 1, more, b);
        }
      }
    }

    /** One frame takes a new state with the same settings. */
    method SetNode(i: nat, n: Node)
      requires Valid() && i < |nodes| && ShapeOf(n) == ShapeOf(nodes[i])
      requires n.kind.Table? ==> Tables.Valid(n.kind.table)
      modifies this`nodes
      ensures Valid() && nodes == old(nodes)[i := n] && Shapes(nodes) == Shapes(old(nodes))
    {
      nodes := nodes[i := n];
      assert forall j :: 0 <= j < |nodes| ==> Shapes(nodes)[j] == Shapes(old(nodes))[j];
    }

    /** beginPrint. */
    method BeginPrint(i: nat) returns (st: Status)
      requires Valid() && i < |nodes|
      modifies this`nodes
      ensures Valid() && Shapes(nodes) == Shapes(old(nodes))
      ensures BeginNode(old(nodes[i])).Ok? ==> st == Done && nodes == old(nodes)[i := BeginNode(old(nodes[i])).value]
      ensures BeginNode(old(nodes[i])).Err? ==> st == Failed(BeginNode(old(nodes[i])).error) && nodes == old(nodes)
    {
      var r := BeginNode(nodes[i]);
      if r.Err? {
        return Failed(r.error);
      }
      SetNode(i, r.value);
      return Done;
    }

    /** resetSize: the frame must be sized again; a container passes this on
        to all its children when keeping together, and otherwise to its
        current child only. Nothing but the sized flags change. */
    method ResetSize(i: nat, keep: bool, fuel: nat) returns (st: Status)
      requires Valid() && i < |nodes|
      modifies this`nodes
      ensures Valid() && Shapes(nodes) == Shapes(old(nodes)) && OnlyUnsized(old(nodes), nodes)
      ensures st.Failed? ==> st.error == OutOfFuel
      ensures st.Done? ==> !nodes[i].base.sized
      ensures st.Done? && keep ==> UnsizedBelow(nodes, frames, i, fuel)
      ensures st.Done? && !keep && old(nodes[i].cursor) < |frames[i]| ==>
        !nodes[frames[i][old(nodes[i].cursor)]].base.sized
      ensures ChangedBelow(old(nodes), nodes, frames, i, fuel)
      decreases fuel, 2
    {
      SetNode(i, Unsized(nodes[i]));
      ghost var before := nodes;
      if keep {
        st := ResetAllChildren(i, fuel);
      } else {
        st := ResetCurrentChild(i, fuel);
      }
      OnlyUnsizedTrans(old(nodes), before, nodes);
      ChangedBelowTrans(old(nodes), before, nodes, frames, i, fuel);
    }

    /** resetSize of a frame kept together: every child, and everything
        below it, must be sized again. */
    method ResetAllChildren(i: nat, fuel: nat) returns (st: Status)
      requires Valid() && i < |nodes| && !nodes[i].base.sized
      modifies this`nodes
      ensures Valid() && Shapes(nodes) == Shapes(old(nodes)) && OnlyUnsized(old(nodes), nodes)
      ensures st.Failed? ==> st.error == OutOfFuel
      ensures st.Done? ==> UnsizedBelow(nodes, frames, i, fuel)
      ensures ChangedBelow(old(nodes), nodes, frames, i, fuel)
      decreases fuel, 1
    {
      if |frames[i]| > 0 && fuel == 0 {
        return Failed(OutOfFuel);
      }
      var k := 0;
      while k < |frames[i]|
        invariant 0 <= k <= |frames[i]| && (k > 0 ==> fuel > 0)
        invariant Valid() && Shapes(nodes) == Shapes(old(nodes)) && OnlyUnsized(old(nodes), nodes)
        invariant !nodes[i].base.sized
        invariant forall m :: 0 <= m < k ==> UnsizedBelow(nodes, frames, frames[i][m], fuel - 1)
        invariant ChangedBelow(old(nodes), nodes, frames, i, fuel)
      {
        ghost var before := nodes;
        st := ResetChildSize(i, k, fuel);
        OnlyUnsizedTrans(old(nodes), before, nodes);
        ChangedBelowTrans(old(nodes), before, nodes, frames, i, fuel);
        if st.Failed? {
          return;
        }
        k := k + 1;
      }
      return Done;
    }

    /** The `k`-th child of a frame kept together, and everything below it,
        must be sized again; what the children before it had, they keep. */
    method ResetChildSize(i: nat, k: nat, fuel: nat) returns (st: Status)
      requires Valid() && i < |nodes| && k < |frames[i]| && fuel > 0 && !nodes[i].base.sized
      requires forall m :: 0 <= m < k ==> UnsizedBelow(nodes, frames, frames[i][m], fuel - 1)
      modifies this`nodes
      ensures Valid() && Shapes(nodes) == Shapes(old(nodes)) && OnlyUnsized(old(nodes), nodes)
      ensures st.Failed? ==> st.error == OutOfFuel
      ensures !nodes[i].base.sized
      ensures st.Done? ==> forall m :: 0 <= m < k + 1 ==> UnsizedBelow(nodes, frames, frames[i][m], fuel - 1)
      ensures ChangedBelow(old(nodes), nodes, frames, i, fuel)
      decreases fuel, 0
    {
      st := ResetSize(frames[i][k], true, fuel - 1);
      ChildChanged(old(nodes), old(nodes), nodes, frames, i, k, fuel - 1);
      if st.Done? {
        UnsizedPrefixStays(old(nodes), nodes, frames, i, k, fuel - 1);
      }
    }

    /** resetSize of a frame not kept together: only its current child is
        sized again. */
    method ResetCurrentChild(i: nat, fuel: nat) returns (st: Status)
      requires Valid() && i < |nodes| && !nodes[i].base.sized
      modifies this`nodes
      ensures Valid() && Shapes(nodes) == Shapes(old(nodes)) && OnlyUnsized(old(nodes), nodes)
      ensures st.Failed? ==> st.error == OutOfFuel
      ensures st.Done? ==> !nodes[i].base.sized
      ensures st.Done? && old(nodes[i].cursor) < |frames[i]| ==>
        !nodes[frames[i][old(nodes[i].cursor)]].base.sized
      ensures ChangedBelow(old(nodes), nodes, frames, i, fuel)
      decreases fuel, 0
    {
      if nodes[i].cursor < |frames[i]| {
        if fuel == 0 {
          return Failed(OutOfFuel);
        }
        st := ResetSize(frames[i][nodes[i].cursor], false, fuel - 1);
        ChildChanged(old(nodes), old(nodes), nodes, frames, i, old(nodes[i].cursor), fuel - 1);
        if st.Failed? {
          return;
        }
      }
      return Done;
    }

    /** reset: the frame and all frames below it forget the last print
        (tables measure their header again). Nothing else changes. */
    method Reset(i: nat, fuel: nat) returns (st: Status)
      requires Valid() && i < |nodes|
      modifies this`nodes
      ensures Valid() && Shapes(nodes) == Shapes(old(nodes)) && OnlyCleared(old(nodes), nodes)
      ensures st.Failed? ==> st.error == OutOfFuel
      ensures st.Done? ==> ClearedBelow(nodes, frames, i, fuel)
      decreases fuel, 1
    {
      SetNode(i, Cleared(nodes[i]));
      if |frames[i]| > 0 && fuel == 0 {
        return Failed(OutOfFuel);
      }
      var k := 0;
      while k < |frames[i]|
        invariant 0 <= k <= |frames[i]| && (k > 0 ==> fuel > 0)
        invariant Valid() && Shapes(nodes) == Shapes(old(nodes)) && OnlyCleared(old(nodes), nodes)
        invariant nodes[i] == Cleared(nodes[i])
        invariant forall m :: 0 <= m < k ==> ClearedBelow(nodes, frames, frames[i][m], fuel - 1)
      {
        ghost var before := nodes;
        st := ResetChild(i, k, fuel);
        OnlyClearedTrans(old(nodes), before, nodes);
        if st.Failed? {
          return;
        }
        k := k + 1;
      }
      return Done;
    }

    /** The `k`-th child of a frame being reset, and everything below it,
        is reset; what the children before it had, they keep. */
    method ResetChild(i: nat, k: nat, fuel: nat) returns (st: Status)
      requires Valid() && i < |nodes| && k < |frames[i]| && fuel > 0 && nodes[i] == Cleared(nodes[i])
      requires forall m :: 0 <= m < k ==> ClearedBelow(nodes, frames, frames[i][m], fuel - 1)
      modifies this`nodes
      ensures Valid() && Shapes(nodes) == Shapes(old(nodes)) && OnlyCleared(old(nodes), nodes)
      ensures st.Failed? ==> st.error == OutOfFuel
      ensures nodes[i] == Cleared(nodes[i])
      ensures st.Done? ==> forall m :: 0 <= m < k + 1 ==> ClearedBelow(nodes, frames, frames[i][m], fuel - 1)
      decreases fuel, 0
    {
      st := Reset(frames[i][k], fuel - 1);
      if st.Done? {
        ClearedPrefixStays(old(nodes), nodes, frames, i, k, fuel - 1);
      }
    }

    // -------------------------------------------------------------------
    // Sizing

    /** calcSize: the frame begins printing if it has not, and unless it is
        still sized from before it is sized for `rect`: its contents are
        measured in the rect limited to its maximal extents, its size is set
        from what they require, and the outcome is settled (see Settle).
        Sizing draws nothing and keeps the page counters. */
    method CalcSize(rd: Rendering.Renderer, i: nat, rect: Rect, fuel: nat) returns (st: Status)
      requires Valid() && rd.Valid() && i < |nodes|
      modifies this, rd, rows
      ensures Valid() && rd.Valid() && Kept(rd) && rd.log == old(rd.log)
      ensures old(nodes[i].base.startedPrinting && nodes[i].base.sized) ==>
        st == Done && nodes == old(nodes) && saveY == old(saveY) && rd.pageFormats == old(rd.pageFormats)
      ensures st.Done? ==> nodes[i].base.sized
      ensures st.Done? && !old(nodes[i].base.sized) ==> SizedWithin(nodes[i].base, rect)
      ensures ChangedBelow(old(nodes), nodes, frames, i, fuel)
      decreases fuel, 3
    {
      st := BeginPrint(i);
      if st.Failed? {
        return;
      }
      if nodes[i].base.sized {
        return Done;
      }
      var bounds := LimitBounds(nodes[i].base, rect);
      SetNode(i, nodes[i].(base := nodes[i].base.(sizingBounds := Some(bounds))));
      ghost var measuring := nodes;
      var values;
      st, values := DoCalcSize(rd, i, bounds, fuel);
      ChangedBelowTrans(old(nodes), measuring, nodes, frames, i, fuel);
      if st.Failed? {
        return;
      }
      ghost var measured := nodes;
      st := FinishSize(rd, i, values, rect);
      ChangedBelowTrans(old(nodes), measured, nodes, frames, i, fuel);
    }

    /** doCalcSize, by variant. Measuring draws nothing. */
    method DoCalcSize(rd: Rendering.Renderer, i: nat, rect: Rect, fuel: nat) returns (st: Status, values: SizeState)
      requires Valid() && rd.Valid() && i < |nodes|
      modifies this, rd, rows
      ensures Valid() && rd.Valid() && Kept(rd) && rd.log == old(rd.log)
      ensures ChangedBelow(old(nodes), nodes, frames, i, fuel)
      decreases fuel, 2
    {
      var kind := nodes[i].kind;
      if kind.Serial? {
        var resume;
        ghost var placed;
        st, values, resume, placed := SizePrintFrames(rd, i, rect, true, false, fuel);
      } else if kind.Box? {
        st, values := BoxCalcSize(rd, i, rect, fuel);
      } else if kind.Fixpos? {
        st, values := FixposCalcSize(rd, i, rect, fuel);
      } else if kind.Page? {
        st, values := PageCalcSize(rd, i, rect, fuel);
      } else {
        st, values := LeafCalcSize(rd, i, rect);
      }
    }

    /** doCalcSize of the leaves: a line, an image, a barcode and a page
        break measure themselves (see MeasureLeaf; a break also registers the
        page format of the next page), a text lays out its text of the pass,
        and a table its header and the rows of the page. Only the leaf
        changes. */
    method LeafCalcSize(rd: Rendering.Renderer, i: nat, rect: Rect) returns (st: Status, values: SizeState)
      requires Valid() && rd.Valid() && i < |nodes| && !IsContainer(nodes[i].kind)
      modifies this`nodes, this`saveY, rd`pageFormats, rows
      ensures Valid() && rd.Valid() && Shapes(nodes) == Shapes(old(nodes))
      ensures forall j :: 0 <= j < |nodes| && j != i ==> nodes[j] == old(nodes[j])
      ensures nodes[i].base == old(nodes[i].base) && nodes[i].cursor == old(nodes[i].cursor)
      ensures !old(nodes[i].kind).Break? ==> rd.pageFormats == old(rd.pageFormats)
      ensures !old(nodes[i].kind).Table? ==> saveY == old(saveY)
      ensures IsMeasured(old(nodes[i].kind)) ==>
        var res := MeasureLeaf(old(nodes[i]), rect, rd.currentPage);
        (res.Err? ==> st == Failed(res.error) && nodes == old(nodes) && rd.pageFormats == old(rd.pageFormats))
        && (res.Ok? ==>
              st == Done && nodes == old(nodes)[i := res.value.0] && values == res.value.1
              && rd.pageFormats == (if res.value.2.Some? then old(rd.pageFormats)[res.value.2.value.0 := res.value.2.value.1]
                                    else old(rd.pageFormats)))
      ensures old(nodes[i].kind).Text? && st.Failed? ==> st.error == OutOfFuel || st.error == Diverges
      ensures old(nodes[i].kind).Table? && st.Failed? ==>
        st.error == Uninitialized("columns") || st.error == UndefinedMethod("setWidth")
    {
      var n := nodes[i];
      if IsMeasured(n.kind) {
        st, values := MeasuredCalcSize(rd, i, rect);
        return;
      }
      match n.kind
      case Text(_) =>
        st, values := TextLeafCalcSize(rd, i, rect);
      case Table(_) =>
        st, values := TableLeafCalcSize(rd, i, rect);
    }

    /** doCalcSize of a line, an image, a barcode or a page break, as
        MeasureLeaf says; a break registers the page format of the next page. */
    method MeasuredCalcSize(rd: Rendering.Renderer, i: nat, rect: Rect) returns (st: Status, values: SizeState)
      requires Valid() && rd.Valid() && i < |nodes| && IsMeasured(nodes[i].kind)
      modifies this`nodes, rd`pageFormats
      ensures Valid() && rd.Valid() && Shapes(nodes) == Shapes(old(nodes))
      ensures var res := MeasureLeaf(old(nodes[i]), rect, rd.currentPage);
        (res.Err? ==> st == Failed(res.error) && nodes == old(nodes) && rd.pageFormats == old(rd.pageFormats))
        && (res.Ok? ==>
              st == Done && nodes == old(nodes)[i := res.value.0] && values == res.value.1
              && rd.pageFormats == (if res.value.2.Some? then old(rd.pageFormats)[res.value.2.value.0 := res.value.2.value.1]
                                    else old(rd.pageFormats)))
    {
      var res := MeasureLeaf(nodes[i], rect, rd.currentPage);
      if res.Err? {
        return Failed(res.error), FreshSizeState;
      }
      if res.value.2.Some? {
        rd.SetPageFormat(res.value.2.value.0, res.value.2.value.1);
      }
      SetNode(i, res.value.0);
      return Done, res.value.1;
    }

    /** doCalcSize of a text: it lays out the text of this pass. */
    method TextLeafCalcSize(rd: Rendering.Renderer, i: nat, rect: Rect) returns (st: Status, values: SizeState)
      requires Valid() && rd.Valid() && i < |nodes| && nodes[i].kind.Text?
      modifies this`nodes
      ensures Valid() && Shapes(nodes) == Shapes(old(nodes))
      ensures forall j :: 0 <= j < |nodes| && j != i ==> nodes[j] == old(nodes[j])
      ensures nodes[i].base == old(nodes[i].base) && nodes[i].cursor == old(nodes[i].cursor)
      ensures st.Failed? ==> st.error == OutOfFuel || st.error == Diverges
      ensures var n := old(nodes[i]); var t := n.kind.text; var font := old(Rendering.FontOf(t.textStyle));
        (!Texts.LayoutFits(rect, rd.metrics.fontHeight(font, n.base.hAlignment, n.base.vAlignment), t.minimumWidth) ==> st.Done?)
        && (st.Done? ==> nodes[i].kind.Text? && Texts.PassSized(rd, t, n.base, font, rect, nodes[i].kind.text, values))
    {
      var n := nodes[i];
      var t := n.kind.text;
      var res := Texts.TextCalcSize(rd, t, n.base, Rendering.FontOf(t.textStyle), rect, TrimFuel);
      if res.Err? {
        return Failed(res.error), FreshSizeState;
      }
      SetNode(i, n.(kind := Text(res.value.0)));
      st, values := Done, res.value.1;
    }

    /** doCalcSize of a table: it sizes its header and the rows of the page,
        and leaves the shared saved position where the rows end. */
    method TableLeafCalcSize(rd: Rendering.Renderer, i: nat, rect: Rect) returns (st: Status, values: SizeState)
      requires Valid() && rd.Valid() && i < |nodes| && nodes[i].kind.Table?
      modifies this`nodes, this`saveY, rows
      ensures Valid() && Shapes(nodes) == Shapes(old(nodes))
      ensures forall j :: 0 <= j < |nodes| && j != i ==> nodes[j] == old(nodes[j])
      ensures nodes[i].base == old(nodes[i].base) && nodes[i].cursor == old(nodes[i].cursor)
      ensures st.Failed? ==> st.error == Uninitialized("columns") || st.error == UndefinedMethod("setWidth")
      ensures old(nodes[i].kind.table.columns).None? ==> st == Failed(Uninitialized("columns"))
      // the header as measured on entry, the page laid out below it
      ensures var n := old(nodes[i]); var inside := Pens.InnerRect(n.kind.table.border, rect);
        var h := old(TableLayout.SizedHeader(rd.metrics, n.kind.table, n.base, inside));
        (n.kind.table.columns.Some? ==> (st.Failed? <==> h.Err?))
        && (st.Done? ==> h.Ok? && nodes[i].kind.Table?
                         && TableLayout.BelowHeader(h.value, n.base, inside, nodes[i].kind.table, values))
    {
      var n := nodes[i];
      var t := n.kind.table;
      assert Tables.Valid(t);
      var res, y := TableLayout.TableCalcSize(rd.metrics, t, n.base, rect, saveY);
      if res.Ok? {
        SetTable(i, res.value.0, y);
        st, values := Done, res.value.1;
      } else {
        st, values := Failed(res.error), FreshSizeState;
      }
    }

    /** A table frame's new paging state, over the same rows, and the shared
        saved position. */
    method SetTable(i: nat, u: Tables.TableState, y: real)
      requires Valid() && i < |nodes| && nodes[i].kind.Table? && Tables.Valid(u)
      requires u.tableData == nodes[i].kind.table.tableData
      modifies this`nodes, this`saveY
      ensures Valid() && nodes == old(nodes)[i := old(nodes[i]).(kind := Table(u))] && saveY == y
      ensures Shapes(nodes) == Shapes(old(nodes))
    {
      SetNode(i, nodes[i].(kind := Table(u)));
      saveY := y;
    }

    /** The rest of calcSize once the contents are measured: the size is set
        from what they require and the outcome settled in the rect (against
        the page's bounds when the frame keeps together and continues). */
    method FinishSize(rd: Rendering.Renderer, i: nat, values: SizeState, rect: Rect) returns (st: Status)
      requires Valid() && rd.Valid() && i < |nodes|
      modifies this`nodes
      ensures Valid() && Shapes(nodes) == Shapes(old(nodes))
      ensures forall j :: 0 <= j < |nodes| && j != i ==> nodes[j] == old(nodes[j])
      ensures st.Done? ==> SizedWithin(nodes[i].base, rect)
      ensures st.Done? ==>
        nodes[i].base.fits == (values.fits && !(nodes[i].base.keepTogether && values.continued))
        && nodes[i].base.continued == values.continued && nodes[i].base.requiredSize == values.requiredSize
      ensures st.Failed? ==> nodes == old(nodes) && st.error in {TooBigKeepTogether, NoSpaceLeft}
    {
      var b := SetSize(nodes[i].base, values.requiredSize, rect);
      var pageBounds := EmptyRect;
      if b.keepTogether && values.continued {
        assert rd.Governed(rd.PageOrCurrent(0)) by {
          assert 0 in rd.pageFormats && 0 <= rd.PageOrCurrent(0);
        }
        pageBounds := rd.GetPageBounds(0);
      }
      var settled := Settle(b, values, rect, pageBounds);
      if settled.Err? {
        return Failed(settled.error);
      }
      SetNode(i, nodes[i].(base := settled.value));
      st := Done;
    }

    /** sizePrintFrames of a series, from its current child on: a child
        placed to the right in a horizontal series first leaves room for the
        children after it; each child is sized and, when it fits, printed
        (unless only sizing) and the rect moves past it; the walk stops at
        the first child that does not fit (which must be sized again), and at
        a continued child (in a horizontal series only the last one). The
        series resumes at the first continued child of a horizontal run, or
        where the walk stopped, and continues if that is a child; it fits
        when some child fitted or nothing was left to place. The cursor moves
        to the resume point only when advancing. The required size is what
        the placed children take one after the other. */
    method SizePrintFrames(rd: Rendering.Renderer, i: nat, inRect: Rect, sizeOnly: bool, advance: bool, fuel: nat)
      returns (st: Status, values: SizeState, resume: nat, ghost placed: seq<Size>)
      requires Valid() && rd.Valid() && i < |nodes| && nodes[i].kind.Serial?
      modifies this, rd, rows
      ensures Valid() && rd.Valid() && Kept(rd)
      ensures sizeOnly ==> rd.log == old(rd.log)
      ensures st.Done? ==> values.continued == (resume < |frames[i]|)
      ensures st.Done? ==> old(nodes[i].cursor) <= resume && (resume > old(nodes[i].cursor) ==> resume <= |frames[i]|)
      ensures st.Done? ==> nodes[i].cursor == (if advance then resume else old(nodes[i].cursor))
      ensures st.Done? && !values.fits ==> resume == old(nodes[i].cursor) && values.continued
      ensures st.Done? && resume == old(nodes[i].cursor) && !values.continued ==> values.fits
      ensures st.Done? ==> values.requiredSize == AdvanceAll(old(nodes[i].kind.direction), placed, inRect, ZeroSize).1
      ensures st.Done? ==> (values.fits <==> |placed| > 0 || (resume == old(nodes[i].cursor) && !values.continued))
      ensures ChangedBelow(old(nodes), nodes, frames, i, fuel)
      ensures st.Done? && fuel > 0 && old(nodes[i].cursor) <= |frames[i]| && Separate(frames, i, old(nodes[i].cursor), fuel - 1) ==>
        PlacedSizes(nodes, frames, i, old(nodes[i].cursor), placed)
      decreases fuel, 1
    {
      var saved := nodes[i].cursor;
      var req, anyPlaced;
      st, resume, req, anyPlaced, placed := Walk(rd, i, inRect, sizeOnly, fuel);
      if st.Failed? {
        return st, FreshSizeState, resume, placed;
      }
      var continued := resume < |frames[i]|;
      var fits := anyPlaced || (resume == saved && !continued);
      values := SizeState(req, fits, continued);
      assert Shapes(nodes)[i] == Shapes(old(nodes))[i];
      ghost var walked := nodes;
      SetNode(i, nodes[i].(cursor := if advance then resume else saved));
      ChangedBelowTrans(old(nodes), walked, nodes, frames, i, fuel);
      if fuel > 0 && saved <= |frames[i]| && Separate(frames, i, saved, fuel - 1) {
        PlacedSelf(walked, frames, i, saved, fuel - 1, placed, nodes[i]);
      }
    }

    /** The walk of sizePrintFrames over the children from the current one
        on: where it resumes, what the placed children require, and their
        sizes. */
    method Walk(rd: Rendering.Renderer, i: nat, inRect: Rect, sizeOnly: bool, fuel: nat)
      returns (st: Status, resume: nat, req: Size, anyPlaced: bool, ghost placed: seq<Size>)
      requires Valid() && rd.Valid() && i < |nodes| && nodes[i].kind.Serial?
      modifies this, rd, rows
      ensures Valid() && rd.Valid() && Kept(rd)
      ensures sizeOnly ==> rd.log == old(rd.log)
      ensures st.Done? ==> old(nodes[i].cursor) <= resume && (resume > old(nodes[i].cursor) ==> resume <= |frames[i]|)
      ensures st.Done? && |placed| == 0 ==> resume == old(nodes[i].cursor)
      ensures anyPlaced == (|placed| > 0)
      ensures st.Done? ==> req == AdvanceAll(old(nodes[i].kind.direction), placed, inRect, ZeroSize).1
      ensures ChangedBelow(old(nodes), nodes, frames, i, fuel)
      ensures st.Done? && fuel > 0 && old(nodes[i].cursor) <= |frames[i]| && Separate(frames, i, old(nodes[i].cursor), fuel - 1) ==>
        PlacedSizes(nodes, frames, i, old(nodes[i].cursor), placed)
      decreases fuel, 0
    {
      var count := |frames[i]|;
      var dir := nodes[i].kind.direction;
      var saved := nodes[i].cursor;
      var cur := saved;
      var rect := inRect;
      req := ZeroSize;
      var saveIdx: int := -1;
      placed := [];
      st, resume, anyPlaced := Done, saved, false;
      ghost var fs := frames;
      ghost var separate := fuel > 0 && saved <= count && Separate(fs, i, saved, fuel - 1);
      if fuel == 0 && cur < count {
        return Failed(OutOfFuel), resume, req, anyPlaced, placed;
      }
      while cur < count
        invariant saved <= cur && (cur > saved ==> cur <= count) && (cur < count ==> fuel > 0)
        invariant -1 <= saveIdx && (saveIdx >= 0 ==> saved <= saveIdx < cur)
        invariant |placed| == 0 ==> cur == saved && saveIdx < 0
        invariant anyPlaced == (|placed| > 0)
        invariant Valid() && rd.Valid() && Kept(rd) && (sizeOnly ==> rd.log == old(rd.log))
        invariant i < |nodes| && count == |frames[i]|
        invariant req == AdvanceAll(dir, placed, inRect, ZeroSize).1 && rect == AdvanceAll(dir, placed, inRect, ZeroSize).0
        invariant ChangedBelow(old(nodes), nodes, frames, i, fuel)
        invariant |placed| == cur - saved
        invariant separate ==> PlacedSizes(nodes, fs, i, saved, placed)
        decreases count - cur
      {
        var fit, childContinued;
        assert Shapes(nodes)[i] == Shapes(old(nodes))[i];
        st, fit, childContinued, rect, req, placed :=
          WalkStep(rd, i, cur, rect, req, sizeOnly, fuel - 1, placed, inRect, saved, old(nodes), separate);
        anyPlaced := anyPlaced || (st.Done? && fit);
        if st.Failed? || !fit || (childContinued && (dir != "H" || cur >= count - 1)) {
          break;
        }
        if childContinued && saveIdx < 0 {
          saveIdx := cur;
        }
        cur := cur + 1;
      }
      resume := if saveIdx >= 0 then saveIdx else cur;
    }

    /** One child of the walk: placed in what is left of the rect, it adds
        its size to what the children placed so far require. */
    method WalkStep(rd: Rendering.Renderer, i: nat, cur: nat, rect: Rect, req: Size, sizeOnly: bool, fuel: nat,
                    ghost placed: seq<Size>, ghost inRect: Rect, ghost saved: nat, ghost start: seq<Node>,
                    ghost separate: bool)
      returns (st: Status, fit: bool, continued: bool, rect': Rect, req': Size, ghost placed': seq<Size>)
      requires Valid() && rd.Valid() && i < |nodes| && saved <= cur < |frames[i]| && nodes[i].kind.Serial?
      requires (rect, req) == AdvanceAll(nodes[i].kind.direction, placed, inRect, ZeroSize)
      requires ChangedBelow(start, nodes, frames, i, fuel + 1)
      requires |placed| == cur - saved
      requires separate ==> Separate(frames, i, saved, fuel) && PlacedSizes(nodes, frames, i, saved, placed)
      modifies this, rd, rows
      ensures Valid() && rd.Valid() && Kept(rd)
      ensures sizeOnly ==> rd.log == old(rd.log)
      ensures st.Done? && fit ==>
        placed' == placed + [NodeSize(nodes[frames[i][cur]])] && continued == nodes[frames[i][cur]].base.continued
      ensures !(st.Done? && fit) ==> placed' == placed
      ensures (rect', req') == AdvanceAll(old(nodes[i].kind.direction), placed', inRect, ZeroSize)
      ensures ChangedBelow(start, nodes, frames, i, fuel + 1)
      ensures separate ==> PlacedSizes(nodes, frames, i, saved, placed')
      decreases fuel, 7
    {
      var dir := nodes[i].kind.direction;
      var size, delta;
      rect', req', placed' := rect, req, placed;
      st, fit, continued, size, delta := PlaceNext(rd, i, cur, rect, sizeOnly, fuel);
      assert ChangedBelow(start, nodes, frames, i, fuel + 1) by {
        FromChanged(start, old(nodes), nodes, frames, i, cur, fuel);
      }
      if st.Done? && fit {
        var moved := Advance(dir, size, rect.(right := rect.right - delta), req);
        AdvancePlaced(dir, placed, size, inRect, delta);
        placed' := placed + [size];
        rect', req' := moved.0.(right := moved.0.right + delta), moved.1;
      }
      if separate {
        PlacedStep(old(nodes), nodes, frames, i, saved, cur, fuel, placed, st.Done? && fit);
      }
    }

    /** The step of sizePrintFrames for the child at `cur`: in a horizontal
        series a child aligned right first leaves `delta` for the children
        after it (the rect to place it in is narrower by that much); then it
        is placed (see PlaceChild). */
    method PlaceNext(rd: Rendering.Renderer, i: nat, cur: nat, rect: Rect, sizeOnly: bool, fuel: nat)
      returns (st: Status, fit: bool, continued: bool, size: Size, delta: real)
      requires Valid() && rd.Valid() && i < |nodes| && cur < |frames[i]| && nodes[i].kind.Serial?
      modifies this, rd, rows
      ensures Valid() && rd.Valid() && Kept(rd)
      ensures sizeOnly ==> rd.log == old(rd.log)
      ensures !(old(nodes[i].kind.direction) == "H" && old(nodes[frames[i][cur]].base.hAlignment) == "R") ==> delta == 0.0
      ensures ChangedFrom(old(nodes), nodes, frames, i, cur, fuel)
      ensures st.Done? && fit ==> size == NodeSize(nodes[frames[i][cur]]) && continued == nodes[frames[i][cur]].base.continued
      ensures st.Done? && old(nodes[i].kind.direction) == "H" && old(nodes[frames[i][cur]].base.hAlignment) == "R"
              && cur + 1 < |frames[i]| && Separate(frames, i, cur, fuel) ==>
        delta == SumWidths(SizesOf(nodes, frames[i][cur + 1..]))
      decreases fuel, 6
    {
      fit, continued, size, delta := false, false, ZeroSize, 0.0;
      if nodes[i].kind.direction == "H" && nodes[frames[i][cur]].base.hAlignment == "R" {
        st, delta := RightDelta(rd, i, cur + 1, rect, fuel);
        ChangedFromEarlier(old(nodes), nodes, frames, i, cur, cur + 1, fuel);
        if st.Failed? {
          return;
        }
      }
      ghost var measured := nodes;
      st, fit, continued, size := PlaceChild(rd, frames[i][cur], rect.(right := rect.right - delta), sizeOnly, fuel);
      ChildChangedFrom(old(nodes), measured, nodes, frames, i, cur, cur, fuel);
      if Separate(frames, i, cur, fuel) {
        TailKept(measured, nodes, frames, i, cur, fuel);
      }
    }

    /** The room a child placed to the right leaves for the children after
        it: those are sized in `rect` and their widths added up. */
    method RightDelta(rd: Rendering.Renderer, i: nat, from: nat, rect: Rect, fuel: nat) returns (st: Status, delta: real)
      requires Valid() && rd.Valid() && i < |nodes|
      modifies this, rd, rows
      ensures Valid() && rd.Valid() && Kept(rd) && rd.log == old(rd.log)
      ensures from >= |frames[i]| ==> st == Done && delta == 0.0 && nodes == old(nodes)
      ensures ChangedFrom(old(nodes), nodes, frames, i, from, fuel)
      ensures st.Done? && from < |frames[i]| && Separate(frames, i, from, fuel) ==>
        delta == SumWidths(SizesOf(nodes, frames[i][from..]))
      decreases fuel, 5
    {
      st, delta := Done, 0.0;
      if from >= |frames[i]| {
        return;
      }
      ghost var separate := Separate(frames, i, from, fuel);
      var k := from;
      while k < |frames[i]|
        invariant Valid() && rd.Valid() && Kept(rd) && rd.log == old(rd.log)
        invariant i < |nodes| && from <= k <= |frames[i]|
        invariant ChangedFrom(old(nodes), nodes, frames, i, from, fuel)
        invariant separate ==> delta == SumWidths(SizesOf(nodes, frames[i][from..k]))
        decreases |frames[i]| - k
      {
        st, delta := MeasureTail(rd, i, from, k, rect, fuel, delta, old(nodes));
        if st.Failed? {
          return;
        }
        k := k + 1;
      }
      assert frames[i][from..k] == frames[i][from..];
      st := Done;
    }

    /** One child after the one placed to the right: sized in `rect`, its
        width is added to the room left so far for the children from `from`
        to it. */
    method MeasureTail(rd: Rendering.Renderer, i: nat, from: nat, k: nat, rect: Rect, fuel: nat, delta: real,
                       ghost start: seq<Node>)
      returns (st: Status, delta': real)
      requires Valid() && rd.Valid() && i < |nodes| && from <= k < |frames[i]|
      requires ChangedFrom(start, nodes, frames, i, from, fuel)
      requires Separate(frames, i, from, fuel) ==> delta == SumWidths(SizesOf(nodes, frames[i][from..k]))
      modifies this, rd, rows
      ensures Valid() && rd.Valid() && Kept(rd) && rd.log == old(rd.log)
      ensures ChangedFrom(start, nodes, frames, i, from, fuel)
      ensures Separate(frames, i, from, fuel) ==> delta' == SumWidths(SizesOf(nodes, frames[i][from..k + 1]))
      decreases fuel, 4
    {
      st := CalcSize(rd, frames[i][k], rect, fuel);
      ChildChangedFrom(start, old(nodes), nodes, frames, i, from, k, fuel);
      delta' := delta + NodeSize(nodes[frames[i][k]]).width;
      if Separate(frames, i, from, fuel) {
        TailStep(old(nodes), nodes, frames, i, from, k, fuel, delta);
      }
    }

    /** One step of sizePrintFrames: the child is sized in `rect`; if it fits
        it is printed there (unless only sizing) and its size is read after;
        if not, it must be sized again (all of it when it keeps together). */
    method PlaceChild(rd: Rendering.Renderer, c: nat, rect: Rect, sizeOnly: bool, fuel: nat)
      returns (st: Status, fit: bool, continued: bool, size: Size)
      requires Valid() && rd.Valid() && c < |nodes|
      modifies this, rd, rows
      ensures Valid() && rd.Valid() && Kept(rd)
      ensures sizeOnly || (st.Done? && !fit) ==> rd.log == old(rd.log)
      ensures st.Done? && fit ==> size == NodeSize(nodes[c]) && continued == nodes[c].base.continued
      ensures st.Done? && !fit ==> !nodes[c].base.sized
      ensures ChangedBelow(old(nodes), nodes, frames, c, fuel)
      decreases fuel, 5
    {
      fit, continued, size := false, false, ZeroSize;
      st := CalcSize(rd, c, rect, fuel);
      if st.Failed? {
        return;
      }
      ghost var sized := nodes;
      if nodes[c].base.fits {
        if !sizeOnly {
          st := Print(rd, c, rect, fuel);
          ChangedBelowTrans(old(nodes), sized, nodes, frames, c, fuel);
          if st.Failed? {
            return;
          }
        }
        fit, continued, size := true, nodes[c].base.continued, NodeSize(nodes[c]);
      } else {
        st := ResetSize(c, nodes[c].base.keepTogether, fuel);
        ChangedBelowTrans(old(nodes), sized, nodes, frames, c, fuel);
      }
    }

    /** doCalcSize of a box: its current child (if any) is sized in the
        content rect the box leaves it, and the box is laid out around the
        child's size (see BoxCalcSize). */
    method BoxCalcSize(rd: Rendering.Renderer, i: nat, rect: Rect, fuel: nat) returns (st: Status, values: SizeState)
      requires Valid() && rd.Valid() && i < |nodes| && nodes[i].kind.Box?
      modifies this, rd, rows
      ensures Valid() && rd.Valid() && Kept(rd) && rd.log == old(rd.log)
      ensures st.Done? ==> nodes[i].kind.Box? && values.requiredSize == SizeOf(nodes[i].kind.box.borderRect)
      ensures st.Done? && Height(nodes[i].kind.box.borderRect) > Height(rect) ==> !values.fits && values.continued
      ensures old(nodes[i].cursor) >= |frames[i]| ==>
        var res := Boxes.BoxCalcSize(old(nodes[i].kind.box), old(nodes[i].base), rect, None, old(ParentBounds(i)));
        st == Done && values == res.1 && nodes == old(nodes)[i := old(nodes[i]).(kind := Box(res.0))]
      ensures var cursor := old(nodes[i].cursor);
        st.Done? && cursor < |frames[i]| && fuel > 0 && !InReach(frames, frames[i][cursor], fuel - 1, i) && parent[i] != Some(i) ==>
        var c := nodes[frames[i][cursor]];
        var res := Boxes.BoxCalcSize(old(nodes[i].kind.box), old(nodes[i].base), rect,
                                     Some((NodeSize(c), c.base.fits, c.base.continued)), ParentBounds(i));
        values == res.1 && nodes[i] == old(nodes[i]).(kind := Box(res.0))
      ensures ChangedBelow(old(nodes), nodes, frames, i, fuel)
      decreases fuel, 1
    {
      var child;
      st, child := BoxChild(rd, i, rect, fuel);
      if st.Failed? {
        values := FreshSizeState;
      } else {
        // the box is read again: it may be its own descendant
        assert Shapes(nodes)[i] == Shapes(old(nodes))[i];
        ghost var sized := nodes;
        values := LayOutBox(i, rect, child);
        ChangedBelowTrans(old(nodes), sized, nodes, frames, i, fuel);
        st := Done;
      }
    }

    /** The box laid out around its child's size, in place. */
    method LayOutBox(i: nat, rect: Rect, child: Option<(Size, bool, bool)>) returns (values: SizeState)
      requires Valid() && i < |nodes| && nodes[i].kind.Box?
      modifies this`nodes
      ensures var res := Boxes.BoxCalcSize(old(nodes[i].kind.box), old(nodes[i].base), rect, child, old(ParentBounds(i)));
        Valid() && values == res.1 && nodes == old(nodes)[i := old(nodes[i]).(kind := Box(res.0))]
      ensures parent[i] != Some(i) ==> ParentBounds(i) == old(ParentBounds(i))
    {
      var res := Boxes.BoxCalcSize(nodes[i].kind.box, nodes[i].base, rect, child, ParentBounds(i));
      SetNode(i, nodes[i].(kind := Box(res.0)));
      values := res.1;
    }

    /** The current child of a box (if any), sized in the content rect the
        box leaves it: its size, whether it fits and whether it continues. */
    method BoxChild(rd: Rendering.Renderer, i: nat, rect: Rect, fuel: nat) returns (st: Status, child: Option<(Size, bool, bool)>)
      requires Valid() && rd.Valid() && i < |nodes| && nodes[i].kind.Box?
      modifies this, rd, rows
      ensures Valid() && rd.Valid() && Kept(rd) && rd.log == old(rd.log)
      ensures ChangedBelow(old(nodes), nodes, frames, i, fuel)
      ensures old(nodes[i].cursor) >= |frames[i]| ==> st == Done && child.None? && nodes == old(nodes)
      ensures var cursor := old(nodes[i].cursor);
        st.Done? && cursor < |frames[i]| ==>
        var c := nodes[frames[i][cursor]];
        fuel > 0 && child == Some((NodeSize(c), c.base.fits, c.base.continued))
        && (!InReach(frames, frames[i][cursor], fuel - 1, i) ==> frames[i][cursor] != i && nodes[i] == old(nodes[i]))
      decreases fuel, 0
    {
      child := None;
      var current := CurrentFrame(i);
      if current.Some? {
        if fuel == 0 {
          return Failed(OutOfFuel), None;
        }
        var inner := Boxes.MaxContentRectAsWritten(nodes[i].kind.box, nodes[i].base, rect, ParentBounds(i));
        st := CalcSize(rd, current.value, inner, fuel - 1);
        ChildChanged(old(nodes), old(nodes), nodes, frames, i, old(nodes[i].cursor), fuel - 1);
        if st.Failed? {
          return;
        }
        var n := nodes[current.value];
        child := Some((NodeSize(n), n.base.fits, n.base.continued));
      } else {
        st := Done;
      }
    }

    /** doCalcSize of a fixed-position frame: its children are sized in the
        rect from the offsets on (to the paper's edge for an overlay), and it
        requires the largest of their sizes, grown to reach from the rect's
        top left to the offset (see FixposWiden). A frame that is not an
        overlay must lie in the printable area (an error otherwise, checked as
        written by OutsideAsWritten) and does not fit when its offset lies
        above or left of the rect; an overlay never continues. */
    method FixposCalcSize(rd: Rendering.Renderer, i: nat, forRect: Rect, fuel: nat) returns (st: Status, values: SizeState)
      requires Valid() && rd.Valid() && i < |nodes| && nodes[i].kind.Fixpos?
      modifies this, rd, rows
      ensures Valid() && rd.Valid() && Kept(rd) && rd.log == old(rd.log)
      ensures |frames[i]| == 0 ==>
        st == Done && nodes == old(nodes)
        && values == SizeState(FixposWiden(old(nodes[i].kind.offsetLeft), old(nodes[i].kind.offsetTop), forRect, ZeroSize), true, false)
      ensures (|frames[i]| > 0 && !old(nodes[i].kind.overlay)
               && exists pb :: old(IsPageBounds(rd, pb)) && OutsideAsWritten(old(nodes[i].kind.offsetLeft), old(nodes[i].kind.offsetTop), pb))
        ==> st == Failed(OutsidePrintableArea) && nodes == old(nodes)
      ensures st.Done? && !values.fits ==>
        var k := old(nodes[i].kind);
        !k.overlay && (k.offsetTop < forRect.top || k.offsetLeft < forRect.left)
        && values == SizeState(ZeroSize, false, false) && nodes == old(nodes)
      ensures st.Done? && old(nodes[i].kind.overlay) ==> !values.continued
      ensures st.Done? && values.fits ==>
        values.requiredSize.height >= old(nodes[i].kind.offsetTop) - forRect.top
        && values.requiredSize.width >= old(nodes[i].kind.offsetLeft) - forRect.left
      ensures ChangedBelow(old(nodes), nodes, frames, i, fuel)
      ensures st.Done? && values.fits && |frames[i]| > 0 && fuel > 0 && Separate(frames, i, 0, fuel - 1) ==>
        var k := old(nodes[i].kind);
        values == SizeState(FixposWiden(k.offsetLeft, k.offsetTop, forRect, MaxAll(SizesOf(nodes, frames[i]))), true,
                            !k.overlay && AnyContinued(nodes, frames[i]))
        && nodes[i] == old(nodes[i])
      decreases fuel, 1
    {
      var offsetLeft, offsetTop, overlay := nodes[i].kind.offsetLeft, nodes[i].kind.offsetTop, nodes[i].kind.overlay;
      var count := |frames[i]|;
      var req, fits, continued := ZeroSize, FreshSizeState.fits, FreshSizeState.continued;
      assert rd.Governed(rd.PageOrCurrent(0)) by {
        assert 0 in rd.pageFormats && 0 <= rd.PageOrCurrent(0);
      }
      if count > 0 {
        if !overlay {
          var pageBounds := rd.GetPageBounds(0);
          assert forall pb :: IsPageBounds(rd, pb) ==> pb == pageBounds;
          if OutsideAsWritten(offsetLeft, offsetTop, pageBounds) {
            return Failed(OutsidePrintableArea), FreshSizeState;
          }
          if offsetTop < forRect.top || offsetLeft < forRect.left {
            return Done, SizeState(ZeroSize, false, false);
          }
        }
        if fuel == 0 {
          return Failed(OutOfFuel), FreshSizeState;
        }
        var rect := forRect.(left := offsetLeft, top := offsetTop);
        if overlay {
          var paper := rd.GetPaperSize(0);
          rect := rect.(right := paper.width, bottom := paper.height);
        }
        st, req, continued := SizeChildren(rd, i, rect, fuel - 1, !overlay);
        if st.Failed? {
          return Failed(st.error), FreshSizeState;
        }
      }
      st, values := Done, SizeState(FixposWiden(offsetLeft, offsetTop, forRect, req), fits, continued);
    }

    /** doCalcSize of a page frame: on a page it is not printed on it takes
        no room and changes nothing; otherwise its children are sized in the
        whole rect and it requires the largest of their sizes, continuing
        when one of them does. */
    method PageCalcSize(rd: Rendering.Renderer, i: nat, forRect: Rect, fuel: nat) returns (st: Status, values: SizeState)
      requires Valid() && rd.Valid() && i < |nodes| && nodes[i].kind.Page?
      modifies this, rd, rows
      ensures Valid() && rd.Valid() && Kept(rd) && rd.log == old(rd.log)
      ensures |frames[i]| == 0 || !PageFrames.PrintOnPage(old(nodes[i].kind.onPageNr), rd.currentPage) ==>
        st == Done && values == FreshSizeState && nodes == old(nodes)
      ensures st.Done? ==> values.fits && values.requiredSize.width >= 0.0 && values.requiredSize.height >= 0.0
      ensures ChangedBelow(old(nodes), nodes, frames, i, fuel)
      ensures st.Done? && |frames[i]| > 0 && PageFrames.PrintOnPage(old(nodes[i].kind.onPageNr), rd.currentPage)
              && fuel > 0 && Separate(frames, i, 0, fuel - 1) ==>
        values == SizeState(MaxAll(SizesOf(nodes, frames[i])), true, AnyContinued(nodes, frames[i]))
        && nodes[i] == old(nodes[i])
      decreases fuel, 1
    {
      var count := |frames[i]|;
      var req, fits, continued := ZeroSize, FreshSizeState.fits, FreshSizeState.continued;
      if count == 0 || !PageFrames.PrintOnPage(nodes[i].kind.onPageNr, rd.currentPage) {
        return Done, FreshSizeState;
      }
      if fuel == 0 {
        return Failed(OutOfFuel), FreshSizeState;
      }
      st, req, continued := SizeChildren(rd, i, forRect, fuel - 1, true);
      if st.Failed? {
        return Failed(st.error), FreshSizeState;
      }
      st, values := Done, SizeState(req, fits, continued);
    }

    /** The children of a fixed-position or page frame, sized one after the
        other in `rect` (each with `depth` levels below it): the frame
        requires the largest of their sizes and continues when one of them
        does and `whenContinued` holds. (A child that fits sets the frame's
        fits, which it already is.) */
    method SizeChildren(rd: Rendering.Renderer, i: nat, rect: Rect, depth: nat, whenContinued: bool)
      returns (st: Status, req: Size, continued: bool)
      requires Valid() && rd.Valid() && i < |nodes|
      modifies this, rd, rows
      ensures Valid() && rd.Valid() && Kept(rd) && rd.log == old(rd.log)
      ensures ChangedBelow(old(nodes), nodes, frames, i, depth + 1)
      ensures req.width >= 0.0 && req.height >= 0.0 && (!whenContinued ==> !continued)
      ensures st.Done? && Separate(frames, i, 0, depth) ==>
        nodes[i] == old(nodes[i]) && req == MaxAll(SizesOf(nodes, frames[i]))
        && continued == (whenContinued && AnyContinued(nodes, frames[i]))
      decreases depth, 6
    {
      var count := |frames[i]|;
      req, continued := ZeroSize, FreshSizeState.continued;
      ghost var fs := frames;
      ghost var separate := Separate(fs, i, 0, depth);
      var k := 0;
      while k < count
        invariant Valid() && rd.Valid() && Kept(rd) && rd.log == old(rd.log)
        invariant i < |fs| && k <= count == |fs[i]|
        invariant req.width >= 0.0 && req.height >= 0.0 && (!whenContinued ==> !continued)
        invariant ChangedBelow(old(nodes), nodes, fs, i, depth + 1)
        invariant separate ==> nodes[i] == old(nodes[i]) && SizedSoFar(nodes, fs, i, k, req, continued, whenContinued)
        decreases count - k
      {
        ghost var before := nodes;
        var req', continued';
        st, req', continued' := SizeChild(rd, i, k, rect, depth, req, continued, whenContinued, old(nodes));
        if st.Failed? {
          req, continued := req', continued';
          return;
        }
        if separate {
          ChildStep(before, nodes, fs, i, k, depth, req, continued, whenContinued);
        }
        req, continued := req', continued';
        k := k + 1;
      }
      assert fs[i][..count] == fs[i];
      st := Done;
    }

    /** One child of a fixed-position or page frame being sized: the child
        is sized in `rect` and the required size grows to hold it; when it
        continues, `continued` becomes `whenContinued` (a fixed-position
        frame continues unless it is an overlay, a page frame continues). */
    method SizeChild(rd: Rendering.Renderer, i: nat, k: nat, rect: Rect, depth: nat, req: Size, continued: bool,
                     whenContinued: bool, ghost start: seq<Node>)
      returns (st: Status, req': Size, continued': bool)
      requires Valid() && rd.Valid() && i < |nodes| && k < |frames[i]|
      requires ChangedBelow(start, nodes, frames, i, depth + 1)
      requires req.width >= 0.0 && req.height >= 0.0 && (!whenContinued ==> !continued)
      modifies this, rd, rows
      ensures Valid() && rd.Valid() && Kept(rd) && rd.log == old(rd.log)
      ensures ChangedBelow(start, nodes, frames, i, depth + 1)
      ensures ChangedBelow(old(nodes), nodes, frames, frames[i][k], depth)
      ensures req' == MaxSize(req, NodeSize(nodes[frames[i][k]]))
      ensures continued' == if nodes[frames[i][k]].base.continued then whenContinued else continued
      ensures req'.width >= 0.0 && req'.height >= 0.0 && (!whenContinued ==> !continued')
      decreases depth, 5
    {
      st := CalcSize(rd, frames[i][k], rect, depth);
      ChildChanged(start, old(nodes), nodes, frames, i, k, depth);
      var child := nodes[frames[i][k]];
      req', continued' := MaxSize(req, NodeSize(child)), if child.base.continued then whenContinued else continued;
    }

    // -------------------------------------------------------------------
    // Printing

    /** print: when the frame was sized for other bounds than the ones it is
        now printed in, it is re-placed there first (rectChanged); then it is
        sized (if it must be), printed when it fits, and must be sized again
        afterwards (all of it when it keeps together). A frame that does not
        fit draws nothing. */
    method Print(rd: Rendering.Renderer, i: nat, rect: Rect, fuel: nat) returns (st: Status)
      requires Valid() && rd.Valid() && i < |nodes|
      modifies this, rd, rows
      ensures Valid() && rd.Valid() && Kept(rd)
      ensures st.Done? ==> !nodes[i].base.sized
      ensures st.Done? && nodes[i].base.keepTogether ==> UnsizedBelow(nodes, frames, i, fuel)
      ensures ChangedBelow(old(nodes), nodes, frames, i, fuel)
      decreases fuel, 4
    {
      var printing := LimitBounds(nodes[i].base, rect);
      st := Replace(i, rect);
      if st.Failed? {
        return;
      }
      ghost var placed := nodes;
      st := CalcSize(rd, i, rect, fuel);
      ChangedBelowTrans(old(nodes), placed, nodes, frames, i, fuel);
      if st.Failed? {
        return;
      }
      if nodes[i].base.fits {
        ghost var sized := nodes;
        st := DoPrint(rd, i, printing, fuel);
        ChangedBelowTrans(old(nodes), sized, nodes, frames, i, fuel);
        if st.Failed? {
          return;
        }
      }
      assert Shapes(nodes)[i] == Shapes(old(nodes))[i];
      ghost var printed := nodes;
      st := ResetSize(i, nodes[i].base.keepTogether, fuel);
      ChangedBelowTrans(old(nodes), printed, nodes, frames, i, fuel);
      assert Shapes(nodes)[i] == Shapes(old(nodes))[i];
    }

    /** rectChanged, when a sized frame is printed in other bounds than it
        was sized for: it is re-placed in the new bounds (see RectChanged)
        and its size set again from what it then requires. */
    method Replace(i: nat, rect: Rect) returns (st: Status)
      requires Valid() && i < |nodes|
      modifies this`nodes
      ensures Valid() && Shapes(nodes) == Shapes(old(nodes))
      ensures forall j :: 0 <= j < |nodes| && j != i ==> nodes[j] == old(nodes[j])
      ensures var b := old(nodes[i].base);
        !b.sized || IsEqualTo(LimitBounds(b, rect), GetSizingBounds(b)) ==> st == Done && nodes == old(nodes)
      ensures st.Failed? ==> nodes == old(nodes) && (old(nodes[i].kind).Image? || old(nodes[i].kind).Barcode?)
      ensures st.Done? ==> nodes[i].cursor == old(nodes[i].cursor)
    {
      var b := nodes[i].base;
      var printing := LimitBounds(b, rect);
      if b.sized && !IsEqualTo(printing, GetSizingBounds(b)) {
        var changed := RectChanged(nodes[i], ParentBounds(i), GetSizingBounds(b), printing);
        if changed.Err? {
          return Failed(changed.error);
        }
        var n := changed.value.0;
        var values := changed.value.1;
        SetNode(i, n.(base := SetSize(n.base, values.requiredSize, rect).(fits := values.fits, continued := values.continued)));
      }
      st := Done;
    }

    /** doPrint, by variant. */
    method DoPrint(rd: Rendering.Renderer, i: nat, rect: Rect, fuel: nat) returns (st: Status)
      requires Valid() && rd.Valid() && i < |nodes|
      modifies this, rd, rows
      ensures Valid() && rd.Valid() && Kept(rd)
      ensures ChangedBelow(old(nodes), nodes, frames, i, fuel)
      decreases fuel, 2
    {
      var kind := nodes[i].kind;
      if kind.Serial? {
        var values, resume;
        ghost var placed;
        st, values, resume, placed := SizePrintFrames(rd, i, SerialPrintRect(nodes[i].base, rect), false, true, fuel);
      } else if kind.Box? {
        st := BoxPrint(rd, i, fuel);
      } else if kind.Fixpos? {
        st := FixposPrint(rd, i, rect, fuel);
      } else if kind.Page? {
        st := PagePrint(rd, i, rect, fuel);
      } else {
        st := LeafPrint(rd, i, rect);
      }
    }

    /** doPrint of the leaves: a text draws its background (unless white)
        and the text of the pass, and the next pass starts after it; a line,
        an image and a barcode draw themselves; a page break draws nothing;
        a table draws its header, its rows of the page and its lines, and
        its current row moves past the rows printed. */
    method LeafPrint(rd: Rendering.Renderer, i: nat, rect: Rect) returns (st: Status)
      requires Valid() && rd.Valid() && i < |nodes| && !IsContainer(nodes[i].kind)
      modifies this`nodes, rd`log, rows
      ensures Valid() && rd.Valid() && Shapes(nodes) == Shapes(old(nodes)) && old(rd.log) <= rd.log
      ensures forall j :: 0 <= j < |nodes| && j != i ==> nodes[j] == old(nodes[j])
      ensures nodes[i].base == old(nodes[i].base)
      ensures old(nodes[i].kind).Text? ==>
        var t := old(nodes[i].kind.text);
        var res := old(Texts.TextPrint(t, nodes[i].base, rect, Rendering.FontOf(t.textStyle),
                                       t.textStyle.GetBackgroundColor(), t.textStyle.GetTextColor()));
        st == Done && rd.log == old(rd.log) + res.0 && nodes[i].kind == Text(res.1)
      ensures old(nodes[i].kind).Line? ==> st == Done && rd.log == old(rd.log) + Lines.LinePrint(old(nodes[i].kind.line)) && nodes == old(nodes)
      ensures old(nodes[i].kind).Image? ==> st == Done && rd.log == old(rd.log) + Pictures.ImagePrint(old(nodes[i].kind.image)) && nodes == old(nodes)
      ensures old(nodes[i].kind).Barcode? ==> st == Done && rd.log == old(rd.log) + Pictures.BarcodePrint(old(nodes[i].kind.barcode)) && nodes == old(nodes)
      ensures old(nodes[i].kind).Break? ==> st == Done && rd.log == old(rd.log) && nodes == old(nodes)
      ensures old(nodes[i].kind).Table? ==>
        var t := old(nodes[i].kind.table);
        (t.columns.None? ==> st == Failed(Uninitialized("columns")) && rd.log == old(rd.log))
        && (t.columns.Some? ==> st == Done && nodes[i].kind == Table(TableLayout.RowsPrinted(t)))
      ensures old(nodes[i].kind).Table? ==>
        var t := old(nodes[i].kind.table);
        t.columns.Some? && TableLayout.RowsDistinct(t) ==>
          rd.log == old(rd.log) + old(TableLayout.PagePrinted(rd.metrics, t, nodes[i].base, rect))
    {
      var n := nodes[i];
      match n.kind
      case Text(_) =>
        st := TextLeafPrint(rd, i, rect);
      case Line(l) =>
        rd.Draw(Lines.LinePrint(l));
        st := Done;
      case Image(image, _) =>
        rd.Draw(Pictures.ImagePrint(image));
        st := Done;
      case Barcode(bc) =>
        rd.Draw(Pictures.BarcodePrint(bc));
        st := Done;
      case Break(_) =>
        st := Done;
      case Table(_) =>
        st := TableLeafPrint(rd, i, rect);
    }

    /** doPrint of a text: the lines of this pass are drawn and the
        character index moves past them. */
    method TextLeafPrint(rd: Rendering.Renderer, i: nat, rect: Rect) returns (st: Status)
      requires Valid() && rd.Valid() && i < |nodes| && nodes[i].kind.Text?
      modifies this`nodes, rd`log
      ensures Valid() && rd.Valid() && Shapes(nodes) == Shapes(old(nodes))
      ensures forall j :: 0 <= j < |nodes| && j != i ==> nodes[j] == old(nodes[j])
      ensures nodes[i].base == old(nodes[i].base)
      ensures var t := old(nodes[i].kind.text);
        var res := old(Texts.TextPrint(t, nodes[i].base, rect, Rendering.FontOf(t.textStyle),
                                       t.textStyle.GetBackgroundColor(), t.textStyle.GetTextColor()));
        st == Done && rd.log == old(rd.log) + res.0 && nodes[i].kind == Text(res.1)
    {
      var n := nodes[i];
      var t := n.kind.text;
      var res := Texts.TextPrint(t, n.base, rect, Rendering.FontOf(t.textStyle),
                                 t.textStyle.GetBackgroundColor(), t.textStyle.GetTextColor());
      rd.Draw(res.0);
      SetNode(i, n.(kind := Text(res.1)));
      st := Done;
    }

    /** doPrint of a table: the rows that fit are drawn and the row index
        moves past them. */
    method TableLeafPrint(rd: Rendering.Renderer, i: nat, rect: Rect) returns (st: Status)
      requires Valid() && rd.Valid() && i < |nodes| && nodes[i].kind.Table?
      modifies this`nodes, rd`log, rows
      ensures Valid() && rd.Valid() && Shapes(nodes) == Shapes(old(nodes)) && old(rd.log) <= rd.log
      ensures forall j :: 0 <= j < |nodes| && j != i ==> nodes[j] == old(nodes[j])
      ensures nodes[i].base == old(nodes[i].base)
      ensures var t := old(nodes[i].kind.table);
        (t.columns.None? ==> st == Failed(Uninitialized("columns")) && rd.log == old(rd.log))
        && (t.columns.Some? ==> st == Done && nodes[i].kind == Table(TableLayout.RowsPrinted(t)))
      ensures var t := old(nodes[i].kind.table);
        t.columns.Some? && TableLayout.RowsDistinct(t) ==>
          rd.log == old(rd.log) + old(TableLayout.PagePrinted(rd.metrics, t, nodes[i].base, rect))
    {
      var n := nodes[i];
      var t := n.kind.table;
      // the columns are read before anything is drawn
      if t.columns.None? {
        return Failed(Uninitialized("columns"));
      }
      var res, events := TableLayout.TablePrint(rd.metrics, t, n.base, rect);
      CommitTable(rd, i, res.value, events);
      st := Done;
    }

    /** A table's new paging state is stored and what it drew is logged. */
    method CommitTable(rd: Rendering.Renderer, i: nat, u: Tables.TableState, events: seq<Canvas.DrawEvent>)
      requires Valid() && i < |nodes| && nodes[i].kind.Table?
      requires u.tableData == nodes[i].kind.table.tableData && Tables.Valid(u)
      modifies this`nodes, rd`log
      ensures Valid() && Shapes(nodes) == Shapes(old(nodes))
      ensures |nodes| == |old(nodes)| && rd.log == old(rd.log) + events
      ensures forall j :: 0 <= j < |nodes| && j != i ==> nodes[j] == old(nodes[j])
      ensures nodes[i].base == old(nodes[i].base) && nodes[i].kind == Table(u)
    {
      var n := nodes[i];
      TableShapeKept(n, u);
      rd.Draw(events);
      SetNode(i, n.(kind := Table(u)));
    }

    /** doPrint of a box: its border and, unless white, its background,
        then its current child in the content rect. */
    method BoxPrint(rd: Rendering.Renderer, i: nat, fuel: nat) returns (st: Status)
      requires Valid() && rd.Valid() && i < |nodes| && nodes[i].kind.Box?
      modifies this, rd, rows
      ensures Valid() && rd.Valid() && Kept(rd)
      ensures var ev := Boxes.BoxPrint(old(nodes[i].kind.box));
        |old(rd.log)| + |ev| <= |rd.log| && rd.log[..|old(rd.log)| + |ev|] == old(rd.log) + ev
      ensures old(nodes[i].cursor) >= |frames[i]| ==>
        st == Done && rd.log == old(rd.log) + Boxes.BoxPrint(old(nodes[i].kind.box)) && nodes == old(nodes)
      ensures ChangedBelow(old(nodes), nodes, frames, i, fuel)
      decreases fuel, 1
    {
      var box := nodes[i].kind.box;
      rd.Draw(Boxes.BoxPrint(box));
      ghost var drawn := rd.log;
      var current := CurrentFrame(i);
      if current.Some? {
        if fuel == 0 {
          return Failed(OutOfFuel);
        }
        st := Print(rd, current.value, box.contentRect, fuel - 1);
        ChildChanged(old(nodes), old(nodes), nodes, frames, i, old(nodes[i].cursor), fuel - 1);
        assert rd.log[..|drawn|] == drawn;
      } else {
        st := Done;
      }
    }

    /** doPrint of a fixed-position frame: each child is sized and printed
        from the offsets on; a continued child makes the frame continue
        unless it is an overlay. */
    method FixposPrint(rd: Rendering.Renderer, i: nat, inRect: Rect, fuel: nat) returns (st: Status)
      requires Valid() && rd.Valid() && i < |nodes| && nodes[i].kind.Fixpos?
      modifies this, rd, rows
      ensures Valid() && rd.Valid() && Kept(rd)
      ensures |frames[i]| == 0 ==> st == Done && nodes == old(nodes) && rd.log == old(rd.log)
      ensures ChangedBelow(old(nodes), nodes, frames, i, fuel)
      ensures st.Done? && fuel > 0 && Separate(frames, i, 0, fuel - 1) ==>
        nodes[i] == if AnyContinued(nodes, frames[i])
                    then old(nodes[i]).(base := old(nodes[i].base).(continued := !old(nodes[i].kind.overlay)))
                    else old(nodes[i])
      decreases fuel, 1
    {
      var overlay := nodes[i].kind.overlay;
      var rect := inRect.(left := nodes[i].kind.offsetLeft, top := nodes[i].kind.offsetTop);
      var count := |frames[i]|;
      if count > 0 && fuel == 0 {
        return Failed(OutOfFuel);
      }
      ghost var fs := frames;
      ghost var separate := fuel > 0 && Separate(fs, i, 0, fuel - 1);
      var k := 0;
      while k < count
        invariant i < |fs| && k <= count == |fs[i]|
        invariant Valid() && rd.Valid() && Kept(rd)
        invariant count == 0 ==> nodes == old(nodes) && rd.log == old(rd.log)
        invariant ChangedBelow(old(nodes), nodes, fs, i, fuel)
        invariant separate ==> PrintedSoFar(nodes, fs, i, k, old(nodes[i]), !overlay)
        decreases count - k
      {
        assert Shapes(nodes)[i] == Shapes(old(nodes))[i];
        ghost var before := nodes;
        ghost var mid;
        st, mid := FixposChildPrint(rd, i, k, rect, overlay, fuel);
        ChangedBelowTrans(old(nodes), before, nodes, fs, i, fuel);
        if st.Failed? {
          return;
        }
        if separate {
          PrintStep(before, mid, fs, i, k, fuel - 1, old(nodes[i]), !overlay);
        }
        k := k + 1;
      }
      assert fs[i][..count] == fs[i];
      st := Done;
    }

    /** One child of a fixed-position frame: sized and printed in the rect;
        if it continues, so does the frame unless it is an overlay. */
    method FixposChildPrint(rd: Rendering.Renderer, i: nat, k: nat, rect: Rect, overlay: bool, fuel: nat)
      returns (st: Status, ghost printed: seq<Node>)
      requires Valid() && rd.Valid() && i < |nodes| && k < |frames[i]| && fuel > 0 && nodes[i].kind.Fixpos?
      modifies this, rd, rows
      ensures Valid() && rd.Valid() && Kept(rd)
      ensures ChangedBelow(old(nodes), nodes, frames, i, fuel)
      ensures ChangedBelow(old(nodes), printed, frames, frames[i][k], fuel - 1)
      ensures st.Done? ==> nodes == MarkContinued(printed, i, frames[i][k], !overlay)
      decreases fuel, 0
    {
      var c := frames[i][k];
      st := CalcSize(rd, c, rect, fuel - 1);
      ghost var sized := nodes;
      printed := nodes;
      if st.Failed? {
        ChildChanged(old(nodes), old(nodes), nodes, frames, i, k, fuel - 1);
        return;
      }
      st := Print(rd, c, rect, fuel - 1);
      ChangedBelowTrans(old(nodes), sized, nodes, frames, c, fuel - 1);
      ChildChanged(old(nodes), old(nodes), nodes, frames, i, k, fuel - 1);
      printed := nodes;
      if st.Failed? {
        return;
      }
      if nodes[c].base.continued {
        assert Shapes(nodes)[i] == Shapes(old(nodes))[i];
        SetNode(i, nodes[i].(base := nodes[i].base.(continued := !overlay)));
      }
    }

    /** doPrint of a page frame: nothing on a page it is not printed on;
        otherwise its children are printed in the rect (cut to its required
        width unless it uses the full width), and a continued child makes the
        frame continue. */
    method PagePrint(rd: Rendering.Renderer, i: nat, inRect: Rect, fuel: nat) returns (st: Status)
      requires Valid() && rd.Valid() && i < |nodes| && nodes[i].kind.Page?
      modifies this, rd, rows
      ensures Valid() && rd.Valid() && Kept(rd)
      ensures |frames[i]| == 0 || !PageFrames.PrintOnPage(old(nodes[i].kind.onPageNr), rd.currentPage) ==>
        st == Done && nodes == old(nodes) && rd.log == old(rd.log)
      ensures ChangedBelow(old(nodes), nodes, frames, i, fuel)
      ensures st.Done? && fuel > 0 && Separate(frames, i, 0, fuel - 1) ==>
        nodes[i] == if AnyContinued(nodes, frames[i]) && PageFrames.PrintOnPage(old(nodes[i].kind.onPageNr), rd.currentPage)
                    then old(nodes[i]).(base := old(nodes[i].base).(continued := true))
                    else old(nodes[i])
      decreases fuel, 1
    {
      if !PageFrames.PrintOnPage(nodes[i].kind.onPageNr, rd.currentPage) {
        return Done;
      }
      var b := nodes[i].base;
      var rect := if b.useFullWidth then inRect else inRect.(right := inRect.left + b.requiredSize.width);
      var count := |frames[i]|;
      if count > 0 && fuel == 0 {
        return Failed(OutOfFuel);
      }
      ghost var fs := frames;
      ghost var separate := fuel > 0 && Separate(fs, i, 0, fuel - 1);
      var k := 0;
      st := Done;
      while k < count
        invariant i < |fs| && k <= count == |fs[i]| && st.Done?
        invariant Valid() && rd.Valid() && Kept(rd)
        invariant count == 0 ==> nodes == old(nodes) && rd.log == old(rd.log)
        invariant ChangedBelow(old(nodes), nodes, fs, i, fuel)
        invariant separate ==> PrintedSoFar(nodes, fs, i, k, old(nodes[i]), true)
        decreases count - k
      {
        assert Shapes(nodes)[i] == Shapes(old(nodes))[i];
        ghost var before := nodes;
        ghost var printed;
        st, printed := PageChildPrint(rd, i, k, rect, fuel);
        ChangedBelowTrans(old(nodes), before, nodes, fs, i, fuel);
        if st.Failed? {
          break;
        }
        if separate {
          PrintStep(before, printed, fs, i, k, fuel - 1, old(nodes[i]), true);
        }
        k := k + 1;
      }
      assert fs[i][..count] == fs[i];
    }

    /** One child of a page frame: printed in the rect; if it continues, so
        does the page frame. */
    method PageChildPrint(rd: Rendering.Renderer, i: nat, k: nat, rect: Rect, fuel: nat)
      returns (st: Status, ghost printed: seq<Node>)
      requires Valid() && rd.Valid() && i < |nodes| && k < |frames[i]| && fuel > 0 && nodes[i].kind.Page?
      modifies this, rd, rows
      ensures Valid() && rd.Valid() && Kept(rd)
      ensures ChangedBelow(old(nodes), nodes, frames, i, fuel)
      ensures ChangedBelow(old(nodes), printed, frames, frames[i][k], fuel - 1)
      ensures st.Done? ==> nodes == MarkContinued(printed, i, frames[i][k], true)
      decreases fuel, 0
    {
      var c := frames[i][k];
      st := Print(rd, c, rect, fuel - 1);
      ChildChanged(old(nodes), old(nodes), nodes, frames, i, k, fuel - 1);
      printed := nodes;
      if st.Failed? {
        return;
      }
      if nodes[c].base.continued {
        assert Shapes(nodes)[i] == Shapes(old(nodes))[i];
        SetNode(i, nodes[i].(base := nodes[i].base.(continued := true)));
        ChangedBelowTrans(old(nodes), printed, nodes, frames, i, fuel);
      }
    }
  }
}
