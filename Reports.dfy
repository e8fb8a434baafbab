/** The report driver: a header, a footer and a body, each a vertical
    series, printed page by page; optionally the pages are first counted in
    a pass whose output is thrown away, so that page variables can name the
    total. */
module Reports {
  import opened Wrappers
  import opened Geometry
  import opened FrameBase
  import Canvas
  import Frames
  import PageFormats
  import Rendering

  class Report {
    const layout: Frames.Layout
    const rd: Rendering.Renderer
    const body: nat
    const header: nat
    const footer: nat
    /** Neither has a setter, so both stay 0.0 and their branches never run. */
    const headerMaxHeight: real
    const footerMaxHeight: real
    var countPages: bool

    ghost predicate Valid()
      reads this, layout, rd
    {
      layout.Valid() && rd.Valid()
      && body < |layout.nodes| && header < |layout.nodes| && footer < |layout.nodes|
    }

    /** The constructor: a renderer for the page format, and three empty
        vertical series; the header is aligned to the top and the footer to
        the bottom. Pages are not counted. */
    constructor (metrics: Canvas.Metrics, pageFormat: PageFormats.PageFormat)
      ensures Valid() && fresh(layout) && fresh(rd) && !countPages
      ensures rd.log == [] && rd.pageFormats == map[0 := pageFormat] && !rd.pagesCounted
      ensures layout.frames == [[], [], []] && layout.rows == {}
      ensures layout.nodes == [Frames.Node(DefaultBase, 0, Frames.Serial("V")),
                               Frames.Node(DefaultBase.(vAlignment := "T"), 0, Frames.Serial("V")),
                               Frames.Node(DefaultBase.(vAlignment := "B"), 0, Frames.Serial("V"))]
      ensures body == 0 && header == 1 && footer == 2
      ensures headerMaxHeight == 0.0 && footerMaxHeight == 0.0
    {
      var r := new Rendering.Renderer(metrics, pageFormat);
      var l := new Frames.Layout();
      var b := l.NewFrame(DefaultBase, Frames.Serial("V"));
      var h := l.NewFrame(DefaultBase.(vAlignment := "T"), Frames.Serial("V"));
      var f := l.NewFrame(DefaultBase.(vAlignment := "B"), Frames.Serial("V"));
      rd, layout := r, l;
      body, header, footer := b, h, f;
      headerMaxHeight, footerMaxHeight := 0.0, 0.0;
      countPages := false;
    }

    /** isEndless: some frame lies on its own path from the header, the
        footer or the body, each walked from an empty list. */
    function IsEndless(): bool
      requires Valid()
      reads this, layout, rd
    {
      layout.Endless(header, []) || layout.Endless(footer, []) || layout.Endless(body, [])
    }

    /** A root that holds itself makes the report endless. */
    lemma SelfContainingReport(root: nat, k: nat)
      requires Valid() && (root == header || root == footer || root == body)
      requires k < |layout.frames[root]| && layout.frames[root][k] == root
      ensures IsEndless()
    {
      assert layout.frames[root] != [];
      layout.SelfContainingIsEndless(root, k);
    }

    /** output: an endless report fails before anything is printed;
        otherwise the report is printed (see PrintReport). */
    method Output(fileName: string, action: string, fuel: nat, pageFuel: nat) returns (st: Frames.Status, pages: int)
      requires Valid()
      modifies layout, rd, layout.rows
      ensures Valid()
      ensures old(IsEndless()) ==>
        st == Frames.Failed(EndlessRecursion) && rd.log == old(rd.log) && layout.nodes == old(layout.nodes)
        && rd.currentPage == old(rd.currentPage)
      ensures st.Done? ==> pages == rd.currentPage >= 1
      ensures st.Done? && |fileName| > 0 ==> |rd.log| > 0 && rd.log[|rd.log| - 1] == Canvas.Output(fileName, action)
    {
      if IsEndless() {
        return Frames.Failed(EndlessRecursion), 0;
      }
      st, pages := PrintReport(fileName, action, fuel, pageFuel);
    }

    /** printReport: the document begins, pages are printed while the body
        has more (at most `pageFuel` of them; more is an error), and the
        document is written out. The last page's number is returned. */
    method PrintReport(fileName: string, action: string, fuel: nat, pageFuel: nat) returns (st: Frames.Status, pages: int)
      requires Valid()
      modifies layout, rd, layout.rows
      ensures Valid()
      ensures st.Done? ==> pages == rd.currentPage >= 1
      ensures st.Done? && |fileName| > 0 ==> |rd.log| > 0 && rd.log[|rd.log| - 1] == Canvas.Output(fileName, action)
      ensures st.Done? && countPages ==> rd.pagesCounted
    {
      pages := 0;
      st := OnBeginPrint(fuel);
      if st.Failed? {
        return;
      }
      var more := true;
      var k := 0;
      while more
        invariant Valid() && rd.currentPage >= 1 && layout.rows == old(layout.rows)
        invariant k > 0 && countPages ==> rd.pagesCounted
        invariant !more ==> k > 0
        decreases pageFuel - k
      {
        if k >= pageFuel {
          return Frames.Failed(OutOfFuel), pages;
        }
        st, more := OnPrintPage(fuel, pageFuel);
        if st.Failed? {
          return;
        }
        k := k + 1;
      }
      OnEndPrint(fileName, action);
      pages := rd.currentPage;
    }

    /** onBeginPrint: a new document is created (its page 1 added) and only
        then are the pages marked as not counted, so the total of an earlier
        count survives the new document; every frame is then reset. */
    method OnBeginPrint(fuel: nat) returns (st: Frames.Status)
      requires Valid()
      modifies layout`nodes, rd
      ensures Valid() && layout.frames == old(layout.frames) && layout.rows == old(layout.rows)
      ensures Frames.Shapes(layout.nodes) == Frames.Shapes(old(layout.nodes))
      ensures rd.currentPage == 1 && !rd.pagesCounted
      ensures rd.totalPages == if old(rd.pagesCounted) then old(rd.totalPages) else 1
      ensures |rd.log| == |old(rd.log)| + 2 && rd.log[..|old(rd.log)|] == old(rd.log) && rd.log[|old(rd.log)|] == Canvas.NewDocument
      ensures rd.pageFormats == old(rd.pageFormats)
      ensures st.Done? ==> AllCleared(fuel)
    {
      rd.CreateNewPDF();
      rd.SetPagesCounted(false);
      st := ResetAll(fuel);
    }

    /** After reset, every frame reachable from the three roots within
        `depth` levels is as new. */
    ghost predicate AllCleared(depth: nat)
      reads this, layout
    {
      Frames.ClearedBelow(layout.nodes, layout.frames, body, depth)
      && Frames.ClearedBelow(layout.nodes, layout.frames, header, depth)
      && Frames.ClearedBelow(layout.nodes, layout.frames, footer, depth)
    }

    /** reset: the body, the header and the footer are reset, in that order. */
    method ResetAll(fuel: nat) returns (st: Frames.Status)
      requires Valid()
      modifies layout`nodes
      ensures Valid() && Frames.Shapes(layout.nodes) == Frames.Shapes(old(layout.nodes))
      ensures Frames.OnlyCleared(old(layout.nodes), layout.nodes)
      ensures st.Failed? ==> st.error == OutOfFuel
      ensures st.Done? ==> AllCleared(fuel)
    {
      ghost var start := layout.nodes;
      st := layout.Reset(body, fuel);
      if st.Failed? {
        return;
      }
      ghost var afterBody := layout.nodes;
      st := layout.Reset(header, fuel);
      Frames.OnlyClearedTrans(start, afterBody, layout.nodes);
      if st.Failed? {
        return;
      }
      Frames.ClearedStays(afterBody, layout.nodes, layout.frames, body, fuel);
      ghost var afterHeader := layout.nodes;
      st := layout.Reset(footer, fuel);
      Frames.OnlyClearedTrans(start, afterHeader, layout.nodes);
      if st.Failed? {
        return;
      }
      Frames.ClearedStays(afterHeader, layout.nodes, layout.frames, body, fuel);
      Frames.ClearedStays(afterHeader, layout.nodes, layout.frames, header, fuel);
    }

    /** printAPage: in the current page's bounds a non-empty header is
        printed at the top (cut to headerMaxHeight when that is set) and
        reset, and the body's top moves down by its height; a non-empty
        footer is sized, aligned in what is left (at the bottom, by its
        alignment), printed and reset, and the body's bottom moves up by its
        height; a non-empty body is then printed in what remains. There are
        more pages exactly when the body has frames and is continued. */
    method PrintAPage(fuel: nat) returns (st: Frames.Status, more: bool, bodyBounds: Rect, headerHeight: real, footerHeight: real)
      requires Valid()
      modifies layout, rd, layout.rows
      ensures Valid() && layout.Kept(rd)
      ensures |layout.frames[header]| == 0 ==> headerHeight == 0.0
      ensures |layout.frames[footer]| == 0 ==> footerHeight == 0.0
      ensures st.Done? ==> forall pb :: old(Frames.IsPageBounds(rd, pb)) ==>
        bodyBounds == pb.(top := pb.top + headerHeight, bottom := pb.bottom - footerHeight)
      ensures st.Done? ==> (more <==> |layout.frames[body]| > 0 && layout.nodes[body].base.continued)
    {
      assert rd.Governed(rd.PageOrCurrent(0)) by {
        assert 0 in rd.pageFormats && 0 <= rd.PageOrCurrent(0);
      }
      var pageBounds := rd.GetPageBounds(0);
      assert forall pb :: Frames.IsPageBounds(rd, pb) ==> pb == pageBounds;
      st, more, bodyBounds, headerHeight, footerHeight := PrintInBounds(pageBounds, fuel);
    }

    /** printAPage within the page bounds: header, footer, then the body in
        what they leave. */
    method PrintInBounds(pageBounds: Rect, fuel: nat)
      returns (st: Frames.Status, more: bool, bodyBounds: Rect, headerHeight: real, footerHeight: real)
      requires Valid()
      modifies layout, rd, layout.rows
      ensures Valid() && layout.Kept(rd)
      ensures |layout.frames[header]| == 0 ==> headerHeight == 0.0
      ensures |layout.frames[footer]| == 0 ==> footerHeight == 0.0
      ensures st.Done? ==>
        bodyBounds == pageBounds.(top := pageBounds.top + headerHeight, bottom := pageBounds.bottom - footerHeight)
      ensures st.Done? ==> (more <==> |layout.frames[body]| > 0 && layout.nodes[body].base.continued)
    {
      more, bodyBounds, footerHeight := false, pageBounds, 0.0;
      st, headerHeight := PrintHeader(pageBounds, fuel);
      if st.Failed? {
        return;
      }
      bodyBounds := bodyBounds.(top := bodyBounds.top + headerHeight);
      st, footerHeight := PrintFooter(bodyBounds, fuel);
      if st.Failed? {
        return;
      }
      bodyBounds := bodyBounds.(bottom := bodyBounds.bottom - footerHeight);
      st, more := PrintBody(bodyBounds, fuel);
    }

    /** The body part of printAPage: a non-empty body is printed in what the
        header and footer leave; it asks for another page when it continues. */
    method PrintBody(bodyBounds: Rect, fuel: nat) returns (st: Frames.Status, more: bool)
      requires Valid()
      modifies layout, rd, layout.rows
      ensures Valid() && layout.Kept(rd)
      ensures st.Done? ==> (more <==> |layout.frames[body]| > 0 && layout.nodes[body].base.continued)
    {
      st, more := Frames.Done, false;
      if |layout.frames[body]| > 0 {
        st := layout.Print(rd, body, bodyBounds, fuel);
        if st.Failed? {
          return;
        }
        more := layout.nodes[body].base.continued;
      }
    }

    /** The header part of printAPage: a non-empty header is printed in the
        page bounds (cut to headerMaxHeight when that is set) and reset; its
        height is what the body loses at the top. */
    method PrintHeader(pageBounds: Rect, fuel: nat) returns (st: Frames.Status, height: real)
      requires Valid()
      modifies layout, rd, layout.rows
      ensures Valid() && layout.Kept(rd)
      ensures |layout.frames[header]| == 0 ==>
        st == Frames.Done && height == 0.0 && layout.nodes == old(layout.nodes) && rd.log == old(rd.log)
      ensures st.Done? && |layout.frames[header]| > 0 ==>
        height == GetSize(layout.nodes[header].base).height
        && Frames.ClearedBelow(layout.nodes, layout.frames, header, fuel)
    {
      st, height := Frames.Done, 0.0;
      if |layout.frames[header]| > 0 {
        var headerBounds := pageBounds;
        if headerMaxHeight > 0.0 {
          headerBounds := headerBounds.(bottom := headerBounds.top + headerMaxHeight);
        }
        st := layout.Print(rd, header, headerBounds, fuel);
        if st.Failed? {
          return;
        }
        st := layout.Reset(header, fuel);
        if st.Failed? {
          return;
        }
        height := GetSize(layout.nodes[header].base).height;
      }
    }

    /** The footer part of printAPage: a non-empty footer is sized in what
        the header left, placed there by its alignment (at the bottom),
        printed and reset; its height is what the body loses at the bottom. */
    method PrintFooter(bounds: Rect, fuel: nat) returns (st: Frames.Status, height: real)
      requires Valid()
      modifies layout, rd, layout.rows
      ensures Valid() && layout.Kept(rd)
      ensures |layout.frames[footer]| == 0 ==>
        st == Frames.Done && height == 0.0 && layout.nodes == old(layout.nodes) && rd.log == old(rd.log)
      ensures st.Done? && |layout.frames[footer]| > 0 ==>
        height == GetSize(layout.nodes[footer].base).height
        && Frames.ClearedBelow(layout.nodes, layout.frames, footer, fuel)
    {
      st, height := Frames.Done, 0.0;
      if |layout.frames[footer]| > 0 {
        var footerBounds := bounds;
        if footerMaxHeight > 0.0 {
          // as written: the top is put below the bottom
          footerBounds := footerBounds.(top := footerBounds.bottom + footerMaxHeight);
        }
        st := layout.CalcSize(rd, footer, footerBounds, fuel);
        if st.Failed? {
          return;
        }
        var b := layout.nodes[footer].base;
        footerBounds := WithSizeAndAlign(footerBounds, Some(GetSize(b)), b.hAlignment, b.vAlignment);
        st := layout.Print(rd, footer, footerBounds, fuel);
        if st.Failed? {
          return;
        }
        st := layout.Reset(footer, fuel);
        if st.Failed? {
          return;
        }
        height := GetSize(layout.nodes[footer].base).height;
      }
    }

    /** countPages: 0 without page counting. Otherwise, unless already
        counted, every page is printed (into the document that is thrown
        away) and added, the pages are marked counted, a new document is
        created and every frame reset; the total is returned. While counting,
        the total grows with the current page. */
    method CountPages(fuel: nat, pageFuel: nat) returns (st: Frames.Status, total: int, ghost countedTo: int)
      requires Valid()
      modifies layout, rd, layout.rows
      ensures Valid() && layout.frames == old(layout.frames) && layout.rows == old(layout.rows)
      ensures !countPages ==> st == Frames.Done && total == 0 && rd.log == old(rd.log) && layout.nodes == old(layout.nodes)
      ensures countPages && old(rd.pagesCounted) ==>
        st == Frames.Done && total == rd.totalPages == old(rd.totalPages) && rd.log == old(rd.log)
        && layout.nodes == old(layout.nodes) && rd.currentPage == old(rd.currentPage)
      ensures countPages && st.Done? ==> rd.pagesCounted && total == rd.totalPages
      ensures countPages && !old(rd.pagesCounted) && st.Done? ==>
        rd.currentPage == 1 && countedTo >= old(rd.currentPage)
        && total == old(rd.totalPages) + (countedTo - old(rd.currentPage))
      // the counting pass is thrown away: a new document, then every frame reset
      ensures countPages && !old(rd.pagesCounted) && st.Done? ==>
        AllCleared(fuel) && |rd.log| >= 2 && rd.log[|rd.log| - 2] == Canvas.NewDocument
        && forall k :: Rendering.IsFloorKey(rd.pageFormats, 1, k) ==>
             rd.log[|rd.log| - 1] == Canvas.NewPage(rd.pageFormats[k].pageOrientation, rd.pageFormats[k].pageSize)
    {
      total, countedTo := 0, rd.currentPage;
      if !countPages {
        return Frames.Done, 0, countedTo;
      }
      if !rd.pagesCounted {
        var more := true;
        var k := 0;
        while more
          invariant Valid() && layout.frames == old(layout.frames) && layout.rows == old(layout.rows)
          invariant !rd.pagesCounted && rd.currentPage >= old(rd.currentPage)
          invariant rd.totalPages == old(rd.totalPages) + (rd.currentPage - old(rd.currentPage))
          decreases pageFuel - k
        {
          if k >= pageFuel {
            return Frames.Failed(OutOfFuel), 0, countedTo;
          }
          var bodyBounds, headerHeight, footerHeight;
          st, more, bodyBounds, headerHeight, footerHeight := PrintAPage(fuel);
          if st.Failed? {
            return st, 0, countedTo;
          }
          if more {
            rd.AddPage();
          }
          k := k + 1;
        }
        countedTo := rd.currentPage;
        rd.SetPagesCounted(true);
        rd.CreateNewPDF();
        st := ResetAll(fuel);
        if st.Failed? {
          return st, 0, countedTo;
        }
      }
      st, total := Frames.Done, rd.totalPages;
    }

    /** onPrintPage: the pages are counted first if they must be and are
        not yet; then a page is printed, and a page is added when the body
        has more. */
    method OnPrintPage(fuel: nat, pageFuel: nat) returns (st: Frames.Status, more: bool)
      requires Valid()
      modifies layout, rd, layout.rows
      ensures Valid() && layout.frames == old(layout.frames) && layout.rows == old(layout.rows)
      ensures st.Done? && countPages ==> rd.pagesCounted
      ensures st.Done? && (!countPages || old(rd.pagesCounted)) ==>
        rd.currentPage == old(rd.currentPage) + (if more then 1 else 0)
      ensures st.Done? && countPages && !old(rd.pagesCounted) ==> rd.currentPage == 1 + (if more then 1 else 0)
      ensures st.Done? ==> rd.currentPage >= 1 || (rd.currentPage == old(rd.currentPage) && !more)
    {
      more := false;
      if countPages && !rd.pagesCounted {
        var total;
        ghost var countedTo;
        st, total, countedTo := CountPages(fuel, pageFuel);
        if st.Failed? {
          return;
        }
      }
      var bodyBounds, headerHeight, footerHeight;
      st, more, bodyBounds, headerHeight, footerHeight := PrintAPage(fuel);
      if st.Failed? {
        return;
      }
      if more {
        rd.AddPage();
      }
    }

    /** onEndPrint: the document is written out only for a non-empty file
        name. */
    method OnEndPrint(fileName: string, action: string)
      requires Valid()
      modifies rd`log
      ensures Valid()
      ensures rd.log == old(rd.log) + (if |fileName| > 0 then [Canvas.Output(fileName, action)] else [])
    {
      if |fileName| > 0 {
        rd.Output(fileName, action);
      }
    }
  }
}
