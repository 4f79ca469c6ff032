// The page strip of pagenavigator.cpp: three blocks of n labels, a separator between each two
// blocks, and a current page.  PageStrip says which page each label has to show, as a window that
// follows the current page as far as it fits; PageNavigator is the widget, whose three regimes are
// proved to show exactly that.

module PageStrip {
  /** What the constructor, setBlockSize, setMaxPage and setCurrentPage maintain. */
  predicate Sized(n: int, m: int, c: int) {
    3 <= n && n % 2 == 1 && 1 <= c <= m
  }

  function Max(a: int, b: int): int {
    if a < b then b else a
  }

  function Min(a: int, b: int): int {
    if a < b then a else b
  }

  /** How many labels are visible. */
  function VisibleCount(n: int, m: int): int {
    Min(m, 3 * n)
  }

  /** The first page of the middle block when not all pages fit: the block is centred on the
      current page, but does not run into the other two. */
  function CentreStart(n: int, m: int, c: int): int {
    Max(n + 1, Min(m - 2 * n + 1, c - n / 2))
  }

  /** The page on label i. */
  function PageAt(n: int, m: int, c: int, i: int): int {
    if m <= 3 * n || i < n then i + 1
    else if i < 2 * n then CentreStart(n, m, c) + i - n
    else m - (3 * n - 1 - i)
  }

  ghost predicate Hidden(n: int, m: int, c: int, p: int) {
    1 <= p <= m && forall i :: 0 <= i < VisibleCount(n, m) ==> PageAt(n, m, c, i) != p
  }

  /** Visible pages strictly increase and are pages. */
  lemma StripIncreases(n: int, m: int, c: int, i: int, j: int)
    requires Sized(n, m, c) && 0 <= i < j < VisibleCount(n, m)
    ensures 1 <= PageAt(n, m, c, i) < PageAt(n, m, c, j) <= m
  {
  }

  /** The label of the current page. */
  function CurrentPlace(n: int, m: int, c: int): int {
    if m <= 3 * n || c <= n then c - 1
    else if c <= m - n then n + c - CentreStart(n, m, c)
    else 3 * n - 1 - (m - c)
  }

  /** The current page is on exactly one visible label. */
  lemma CurrentOnce(n: int, m: int, c: int, i: int)
    requires Sized(n, m, c) && 0 <= i < VisibleCount(n, m)
    ensures 0 <= CurrentPlace(n, m, c) < VisibleCount(n, m)
    ensures PageAt(n, m, c, i) == c <==> i == CurrentPlace(n, m, c)
  {
  }

  /** Where the hidden pages are: in the two gaps around the middle block. */
  lemma HiddenExactly(n: int, m: int, c: int, p: int)
    requires Sized(n, m, c) && 1 <= p <= m
    ensures Hidden(n, m, c, p) <==>
            m > 3 * n && (n < p < CentreStart(n, m, c) || CentreStart(n, m, c) + n <= p <= m - n)
  {
    var s := CentreStart(n, m, c);
    var i := if m <= 3 * n || p <= n then p - 1
             else if s <= p < s + n then n + p - s
             else 3 * n - 1 - (m - p);
    if 0 <= i < VisibleCount(n, m) && PageAt(n, m, c, i) == p {
      assert !Hidden(n, m, c, p);
    }
  }

  // ----- The three regimes of updatePageLabels -------------------------------------------------

  predicate NearStart(n: int, c: int) {
    1 <= c <= n + n / 2 + 1
  }

  predicate NearEnd(n: int, m: int, c: int) {
    m - n - n / 2 <= c <= m
  }

  /** The first two regimes never meet when pages are hidden at all, and only then. */
  lemma RegimesDisjointExact(n: int, m: int)
    requires 3 <= n && n % 2 == 1 && 1 <= m
    ensures (forall c :: 1 <= c <= m ==> !(NearStart(n, c) && NearEnd(n, m, c))) <==> m > 3 * n
  {
    if m <= 3 * n {
      var c := Min(m, n + n / 2 + 1);
      assert NearStart(n, c) && NearEnd(n, m, c);
    }
  }

  /** Each regime is one position of the middle block, and says which side hides pages. */
  lemma RegimeExact(n: int, m: int, c: int)
    requires Sized(n, m, c) && m > 3 * n
    ensures NearStart(n, c) <==> CentreStart(n, m, c) == n + 1
    ensures NearEnd(n, m, c) <==> CentreStart(n, m, c) == m - 2 * n + 1
    ensures !NearStart(n, c) && !NearEnd(n, m, c) ==> CentreStart(n, m, c) == c - n / 2
    ensures NearStart(n, c) <==> !exists p :: p < c && Hidden(n, m, c, p)
    ensures NearEnd(n, m, c) <==> !exists p :: c < p && Hidden(n, m, c, p)
  {
    var s := CentreStart(n, m, c);
    forall p | 1 <= p <= m
      ensures Hidden(n, m, c, p) <==> n < p < s || s + n <= p <= m - n
    {
      HiddenExactly(n, m, c, p);
    }
    if !NearStart(n, c) {
      assert Hidden(n, m, c, n + 1);
    }
    if !NearEnd(n, m, c) {
      assert Hidden(n, m, c, m - n);
    }
  }

  // ----- A strip on the screen ----------------------------------------------------------------

  datatype Strip = Strip(texts: seq<int>, shown: seq<bool>, marked: seq<bool>, left: bool, right: bool)

  /** The strip is right: its visible labels are the first ones and carry their pages, exactly the
      visible label of the current page is highlighted, and a separator shows on the side of the
      current page where pages are hidden. */
  ghost predicate Displays(s: Strip, n: int, m: int, c: int) {
    && |s.texts| == |s.shown| == |s.marked| == 3 * n
    && (forall i :: 0 <= i < 3 * n ==> s.shown[i] == (i < m))
    && (forall i :: 0 <= i < 3 * n && s.shown[i] ==> s.texts[i] == PageAt(n, m, c, i))
    && (forall i :: 0 <= i < 3 * n ==> s.marked[i] == (s.shown[i] && s.texts[i] == c))
    && (s.left <==> exists p :: p < c && Hidden(n, m, c, p))
    && (s.right <==> exists p :: c < p && Hidden(n, m, c, p))
  }

  ghost predicate OnLabel(s: Strip, p: int)
    requires |s.texts| == |s.shown|
  {
    exists i :: 0 <= i < |s.texts| && s.shown[i] && s.texts[i] == p
  }

  /** What a user sees on a right strip: increasing pages, the current one highlighted once, and
      for every page that is not there a separator on its side. */
  lemma WhatIsSeen(s: Strip, n: int, m: int, c: int)
    requires Sized(n, m, c) && Displays(s, n, m, c)
    ensures forall i, j :: 0 <= i < j < 3 * n && s.shown[j] ==> s.shown[i] && 1 <= s.texts[i] < s.texts[j] <= m
    ensures exists k :: 0 <= k < 3 * n && s.shown[k] && s.marked[k] && s.texts[k] == c
    ensures forall i, j :: 0 <= i < 3 * n && 0 <= j < 3 * n && s.marked[i] && s.marked[j] ==> i == j
    ensures forall p :: 1 <= p <= m ==> OnLabel(s, p) || (s.left && p < c) || (s.right && c < p)
    ensures s.left || s.right <==> m > 3 * n
  {
    forall i, j | 0 <= i < j < 3 * n && s.shown[j]
      ensures s.shown[i] && 1 <= s.texts[i] < s.texts[j] <= m
    {
      StripIncreases(n, m, c, i, j);
    }
    forall i | 0 <= i < VisibleCount(n, m)
      ensures s.marked[i] <==> i == CurrentPlace(n, m, c)
    {
      CurrentOnce(n, m, c, i);
    }
    CurrentOnce(n, m, c, 0);
    var k := CurrentPlace(n, m, c);
    assert s.shown[k] && s.marked[k];
    SomethingHidden(n, m, c);
    forall p | 1 <= p <= m && !OnLabel(s, p)
      ensures (s.left && p < c) || (s.right && c < p)
    {
      assert Hidden(n, m, c, p);
      assert OnLabel(s, c);
    }
  }

  lemma SomethingHidden(n: int, m: int, c: int)
    requires Sized(n, m, c)
    ensures (exists p :: p != c && Hidden(n, m, c, p)) <==> m > 3 * n
  {
    if m > 3 * n {
      RegimeExact(n, m, c);
      RegimesDisjointExact(n, m);
    } else {
      forall p | Hidden(n, m, c, p)
        ensures false
      {
        HiddenExactly(n, m, c, p);
      }
    }
  }
}

module PageNavigation {
  import opened PageStrip

  class PageNavigator {
    var blockSize: int
    var maxPage: int
    var currentPage: int
    const texts: array<int>
    const shown: array<bool>
    const marked: array<bool>
    var leftSeparator: bool
    var rightSeparator: bool
    var emitted: seq<int>

    ghost predicate Laid()
      reads this
    {
      && 3 <= blockSize && blockSize % 2 == 1
      && texts.Length == shown.Length == marked.Length == 3 * blockSize
      && shown != marked
    }

    ghost function Shown(): Strip
      reads this, texts, shown, marked
    {
      Strip(texts[..], shown[..], marked[..], leftSeparator, rightSeparator)
    }

    /** The invariant of the widget: a current page in range, and a right strip. */
    ghost predicate Valid()
      reads this, texts, shown, marked
    {
      Laid() && Sized(blockSize, maxPage, currentPage) && Displays(Shown(), blockSize, maxPage, currentPage)
    }

    /** The block size is made odd and at least 3. */
    static function OddBlock(size: int): (n: int)
      ensures n >= 3 && n % 2 == 1 && n >= size && (n == 3 || n <= size + 1)
    {
      var s := Max(size, 3);
      if s % 2 == 0 then s + 1 else s
    }

    constructor (size: int)
      ensures Valid() && fresh(texts) && fresh(shown) && fresh(marked)
      ensures blockSize == OddBlock(size) && maxPage == 1 && currentPage == 1 && emitted == []
    {
      var n := OddBlock(size);
      blockSize := n;
      maxPage := 0;
      currentPage := 0;
      texts := new int[3 * n](i => i + 1);
      shown := new bool[3 * n](i => true);
      marked := new bool[3 * n](i => false);
      leftSeparator, rightSeparator := true, true;
      emitted := [];
      new;
      SetMaxPage(1);
    }

    /** setMaxPage: a new number of pages goes back to page 1, without a signal. */
    method SetMaxPage(page: int)
      requires Laid() && (maxPage == 0 || Valid())
      modifies this`maxPage, this`currentPage, this`leftSeparator, this`rightSeparator, texts, shown, marked
      ensures Valid()
      ensures maxPage == if page < 1 then 1 else page
      ensures currentPage == if maxPage == old(maxPage) then old(currentPage) else 1
      ensures maxPage == old(maxPage) ==> Shown() == old(Shown())
    {
      var most := Max(page, 1);
      if maxPage != most {
        maxPage := most;
        currentPage := 1;
        UpdatePageLabels();
      }
    }

    /** setCurrentPage: the nearest page there is; a signal only for a change that asks for it. */
    method SetCurrentPage(page: int, signalEmitted: bool)
      requires Valid()
      modifies this`currentPage, this`leftSeparator, this`rightSeparator, this`emitted, texts, shown, marked
      ensures Valid()
      ensures 1 <= page <= maxPage ==> currentPage == page
      ensures page < 1 ==> currentPage == 1
      ensures page > maxPage ==> currentPage == maxPage
      ensures currentPage == old(currentPage) ==> Shown() == old(Shown())
      ensures emitted == old(emitted) + if signalEmitted && currentPage != old(currentPage) then [currentPage] else []
    {
      var next := Min(Max(page, 1), maxPage);
      if next != currentPage {
        currentPage := next;
        UpdatePageLabels();
        if signalEmitted {
          emitted := emitted + [next];
        }
      }
    }

    /** updatePageLabels. */
    method UpdatePageLabels()
      requires Laid() && Sized(blockSize, maxPage, currentPage)
      modifies this`leftSeparator, this`rightSeparator, texts, shown, marked
      ensures Displays(Shown(), blockSize, maxPage, currentPage)
    {
      leftSeparator, rightSeparator := false, false;
      SomethingHidden(blockSize, maxPage, currentPage);
      if maxPage <= blockSize * 3 {
        ShowAllPages();
        return;
      }
      var c, n, m := currentPage, blockSize, maxPage;
      var centreStart;
      RegimeExact(n, m, c);
      RegimesDisjointExact(n, m);
      if c >= 1 && c <= n + n / 2 + 1 {
        centreStart := n + 1;
        rightSeparator := true;
      } else if c >= m - n - n / 2 && c <= m {
        centreStart := m - n - n + 1;
        leftSeparator := true;
      } else {
        centreStart := c - n / 2;
        rightSeparator := true;
        leftSeparator := true;
      }
      assert centreStart == CentreStart(n, m, c);
      FillBlocks(centreStart);
      MarkCurrent();
    }

    /** All pages fit. */
    method ShowAllPages()
      requires Laid() && Sized(blockSize, maxPage, currentPage) && maxPage <= 3 * blockSize
      modifies texts, shown, marked
      ensures forall i :: 0 <= i < 3 * blockSize ==> shown[i] == (i < maxPage)
      ensures forall i :: 0 <= i < maxPage ==> texts[i] == i + 1
      ensures forall i :: 0 <= i < 3 * blockSize ==> marked[i] == (i == currentPage - 1)
    {
      for i := 0 to texts.Length
        invariant forall k :: 0 <= k < i ==> shown[k] == (k < maxPage)
        invariant forall k :: 0 <= k < i && k < maxPage ==> texts[k] == k + 1
        invariant forall k :: 0 <= k < i ==> marked[k] == (k == currentPage - 1)
      {
        if i < maxPage {
          texts[i] := i + 1;
          shown[i] := true;
        } else {
          shown[i] := false;
        }
        marked[i] := currentPage - 1 == i;
      }
    }

    /** One pass fills the three blocks, the last one from its end. */
    method FillBlocks(centreStart: int)
      requires Laid()
      modifies texts
      ensures forall i :: 0 <= i < blockSize ==> texts[i] == i + 1
      ensures forall i :: blockSize <= i < 2 * blockSize ==> texts[i] == centreStart + i - blockSize
      ensures forall i :: 2 * blockSize <= i < 3 * blockSize ==> texts[i] == maxPage - (3 * blockSize - 1 - i)
    {
      var n := blockSize;
      for i := 0 to n
        invariant forall k :: 0 <= k < i ==> texts[k] == k + 1
        invariant forall k :: n <= k < n + i ==> texts[k] == centreStart + k - n
        invariant forall k :: 3 * n - i <= k < 3 * n ==> texts[k] == maxPage - (3 * n - 1 - k)
      {
        texts[i] := i + 1;
        texts[n + i] := centreStart + i;
        texts[3 * n - i - 1] := maxPage - i;
      }
    }

    method MarkCurrent()
      requires Laid()
      modifies shown, marked
      ensures forall i :: 0 <= i < 3 * blockSize ==> shown[i] && marked[i] == (texts[i] == currentPage)
    {
      for i := 0 to texts.Length
        invariant forall k :: 0 <= k < i ==> shown[k] && marked[k] == (texts[k] == currentPage)
      {
        marked[i] := texts[i] == currentPage;
        shown[i] := true;
      }
    }

    // ----- The clicks of eventFilter ---------------------------------------------------------

    method ClickPrevious()
      requires Valid()
      modifies this`currentPage, this`leftSeparator, this`rightSeparator, this`emitted, texts, shown, marked
      ensures Valid() && currentPage == if old(currentPage) > 1 then old(currentPage) - 1 else 1
      ensures emitted == old(emitted) + if old(currentPage) > 1 then [old(currentPage) - 1] else []
    {
      SetCurrentPage(currentPage - 1, true);
    }

    method ClickNext()
      requires Valid()
      modifies this`currentPage, this`leftSeparator, this`rightSeparator, this`emitted, texts, shown, marked
      ensures Valid() && currentPage == if old(currentPage) < maxPage then old(currentPage) + 1 else maxPage
      ensures emitted == old(emitted) + if old(currentPage) < maxPage then [old(currentPage) + 1] else []
    {
      SetCurrentPage(currentPage + 1, true);
    }

    /** A click on a visible label goes to the page it shows, and says so if that is another page. */
    method ClickLabel(i: nat)
      requires Valid() && i < 3 * blockSize && shown[i]
      modifies this`currentPage, this`leftSeparator, this`rightSeparator, this`emitted, texts, shown, marked
      ensures Valid() && currentPage == old(texts[i])
      ensures emitted == old(emitted) + if old(marked[i]) then [] else [old(texts[i])]
    {
      WhatIsSeen(Shown(), blockSize, maxPage, currentPage);
      assert Shown().shown[i] && Shown().texts[i] == texts[i];
      SetCurrentPage(texts[i], true);
    }
  }
}
