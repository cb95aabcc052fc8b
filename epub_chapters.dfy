/**
 * The chapter list of the EPUB reader: the table of contents is drawn as
 * one row per chapter in pre-order, indented by depth, with the current
 * chapter marked by comparing its `href` without the `#fragment`, and a
 * placeholder row when the book has no chapters at all. Clicking a row
 * hands its full `href` to the reader and closes the popover.
 *
 * Rendering is modelled as the sequence of rows produced; dividers,
 * scrolling and styling are not modelled.
 */
module EpubChapters {
  import opened JsString

  /** The fields of an epub.js `NavItem` the list reads. */
  datatype NavItem = NavItem(id: string, href: string, navLabel: string, subitems: Subitems)

  /** A `NavItem`'s optional `subitems` array. */
  datatype Subitems = NoSubitems | Subitems(items: seq<NavItem>)

  /** One drawn row: the "no chapters" placeholder, or a chapter with its left padding in pixels. */
  datatype Row = Placeholder | ChapterRow(href: string, text: string, indent: nat, current: bool)

  // ---------------------------------------------------------------------
  // the current-chapter test

  /** The index of the first `c` in `s` at or after `from`, or `|s|`. */
  function FindFrom(s: string, from: nat, c: char): (i: nat)
    requires from <= |s|
    ensures from <= i <= |s|
    ensures forall k :: from <= k < i ==> s[k] != c
    ensures i < |s| ==> s[i] == c
    decreases |s| - from
  {
    if from == |s| || s[from] == c then from else FindFrom(s, from + 1, c)
  }

  /** The index of the first line terminator in `s` at or after `from`, or `|s|`. */
  function FindLineTerminator(s: string, from: nat): (i: nat)
    requires from <= |s|
    ensures from <= i <= |s|
    ensures forall k :: from <= k < i ==> !IsLineTerminator(s[k])
    ensures i < |s| ==> IsLineTerminator(s[i])
    decreases |s| - from
  {
    if from == |s| || IsLineTerminator(s[from]) then from else FindLineTerminator(s, from + 1)
  }

  /**
   * `href.replace(/#.*\/, '')`: the first `#` and the characters after it,
   * up to but not including a line terminator, are removed.
   */
  function StripFragment(href: string): string {
    var i := FindFrom(href, 0, '#');
    if i == |href| then href
    else href[..i] + href[FindLineTerminator(href, i + 1)..]
  }

  /** What `StripFragment` removes: nothing without a `#`, otherwise exactly the first `#` and the rest of its line. */
  lemma StripFragmentSpec(href: string)
    ensures '#' !in href ==> StripFragment(href) == href
    ensures '#' in href ==> exists i, j ::
              && 0 <= i < j <= |href| && href[i] == '#' && '#' !in href[..i]
              && (forall k :: i < k < j ==> !IsLineTerminator(href[k]))
              && (j < |href| ==> IsLineTerminator(href[j]))
              && StripFragment(href) == href[..i] + href[j..]
  {
    var i := FindFrom(href, 0, '#');
    if i < |href| {
      var j := FindLineTerminator(href, i + 1);
      assert forall c :: c in href[..i] ==> c != '#';
      assert StripFragment(href) == href[..i] + href[j..];
    }
  }

  /** For an `href` on one line, the test compares what comes before the `#`. */
  lemma StripFragmentOfOneLine(path: string, fragment: string)
    requires '#' !in path
    requires forall k :: 0 <= k < |fragment| ==> !IsLineTerminator(fragment[k])
    ensures StripFragment(path + "#" + fragment) == path
  {
    var href := path + "#" + fragment;
    assert href[|path|] == '#';
    var i := FindFrom(href, 0, '#');
    assert forall k :: 0 <= k < |path| ==> href[k] == path[k];
    assert i == |path|;
    assert forall k :: i + 1 <= k < |href| ==> href[k] == fragment[k - |path| - 1];
    var j := FindLineTerminator(href, i + 1);
    assert j == |href|;
    assert href[..i] == path;
    assert href[j..] == [];
  }

  /** `isCurrent` */
  predicate IsCurrent(current: string, href: string) {
    current == StripFragment(href)
  }

  // ---------------------------------------------------------------------
  // rendering

  /** `(level ?? 0) * 20 + 20` */
  function Indent(level: nat): nat {
    level * 20 + 20
  }

  /**
   * `<EpubChapters>`: the placeholder when the list is empty and this is
   * the root list, then the rows of the chapters in order.
   */
  function RenderList(chapters: seq<NavItem>, level: nat, current: string, nonRoot: bool): seq<Row>
    decreases chapters, 1
  {
    (if |chapters| == 0 && !nonRoot then [Placeholder] else []) + RenderItems(chapters, level, current)
  }

  function RenderItems(chapters: seq<NavItem>, level: nat, current: string): seq<Row>
    decreases chapters, 0
  {
    if chapters == [] then []
    else RenderItem(chapters[0], level, current) + RenderItems(chapters[1..], level, current)
  }

  /** One chapter's row, then its subitems one level deeper. */
  function RenderItem(v: NavItem, level: nat, current: string): seq<Row>
    decreases v
  {
    [ChapterRow(v.href, Trim(v.navLabel), Indent(level), IsCurrent(current, v.href))]
    + (match v.subitems
       case Subitems(items) => RenderList(items, level + 1, current, true)
       case NoSubitems => [])
  }

  /** The number of chapters in a table of contents, counting nested ones. */
  function Count(chapters: seq<NavItem>): nat
    decreases chapters
  {
    if chapters == [] then 0
    else
      var v := chapters[0];
      1 + (match v.subitems case Subitems(items) => Count(items) case NoSubitems => 0) + Count(chapters[1..])
  }

  /** A chapter row with a trimmed label, marked current exactly when its `href` points at the current location. */
  predicate RowShape(r: Row, current: string) {
    && r.ChapterRow?
    && (r.text != [] ==> !IsTrimmable(r.text[0]) && !IsTrimmable(r.text[|r.text| - 1]))
    && (r.current <==> IsCurrent(current, r.href))
  }

  /** A well-shaped row indented at least as deep as `level`, by a multiple of 20 pixels. */
  predicate GoodRow(r: Row, level: nat, current: string) {
    RowShape(r, current) && r.indent >= Indent(level) && r.indent % 20 == 0
  }

  lemma GoodRowDeeper(r: Row, level: nat, current: string)
    requires GoodRow(r, level + 1, current)
    ensures GoodRow(r, level, current)
  {
  }

  /** One row per chapter, nested ones included. */
  lemma {:induction false} ItemsCount(chapters: seq<NavItem>, level: nat, current: string)
    ensures |RenderItems(chapters, level, current)| == Count(chapters)
    decreases chapters, 0
  {
    if chapters != [] {
      ItemCount(chapters[0], level, current);
      ItemsCount(chapters[1..], level, current);
    }
  }

  lemma {:induction false} ItemCount(v: NavItem, level: nat, current: string)
    ensures |RenderItem(v, level, current)| == 1 + (match v.subitems case Subitems(items) => Count(items) case NoSubitems => 0)
    decreases v
  {
    match v.subitems {
      case Subitems(items) =>
        ItemsCount(items, level + 1, current);
      case NoSubitems =>
    }
  }

  /**
   * Every row below a list is a chapter row indented at least as deep as
   * the list, by a multiple of 20 pixels, with a trimmed label and the
   * current mark set exactly when its `href` without the fragment is the
   * current location.
   */
  lemma {:induction false} ItemsGood(chapters: seq<NavItem>, level: nat, current: string)
    ensures AllGood(RenderItems(chapters, level, current), level, current)
    decreases chapters, 0
  {
    if chapters != [] {
      ItemGood(chapters[0], level, current);
      ItemsGood(chapters[1..], level, current);
      AllGoodConcat(RenderItem(chapters[0], level, current), RenderItems(chapters[1..], level, current), level, current);
    }
  }

  lemma {:induction false} ItemGood(v: NavItem, level: nat, current: string)
    ensures AllGood(RenderItem(v, level, current), level, current)
    decreases v
  {
    var head := ChapterRow(v.href, Trim(v.navLabel), Indent(level), IsCurrent(current, v.href));
    HeadRowGood(v, level, current);
    match v.subitems {
      case Subitems(items) =>
        var tail := RenderItems(items, level + 1, current);
        ItemsGood(items, level + 1, current);
        AllGoodDeeper(tail, level, current);
        assert RenderList(items, level + 1, current, true) == [] + tail == tail;
        AllGoodConcat([head], tail, level, current);
      case NoSubitems =>
        assert RenderItem(v, level, current) == [head];
    }
  }

  /** Every row of `rows` is good at `level`. */
  predicate AllGood(rows: seq<Row>, level: nat, current: string) {
    forall r :: r in rows ==> GoodRow(r, level, current)
  }

  lemma AllGoodConcat(a: seq<Row>, b: seq<Row>, level: nat, current: string)
    requires AllGood(a, level, current) && AllGood(b, level, current)
    ensures AllGood(a + b, level, current)
  {
  }

  lemma AllGoodDeeper(rows: seq<Row>, level: nat, current: string)
    requires AllGood(rows, level + 1, current)
    ensures AllGood(rows, level, current)
  {
    forall r | r in rows ensures GoodRow(r, level, current) {
      GoodRowDeeper(r, level, current);
    }
  }

  lemma HeadRowGood(v: NavItem, level: nat, current: string)
    ensures GoodRow(ChapterRow(v.href, Trim(v.navLabel), Indent(level), IsCurrent(current, v.href)), level, current)
  {
    var t := Trim(v.navLabel);
    assert t != [] ==> !IsTrimmable(t[0]) && !IsTrimmable(t[|t| - 1]);
  }

  /** The placeholder is drawn only for an empty root list, and then it is the only row. */
  lemma PlaceholderOnlyForEmptyRoot(chapters: seq<NavItem>, level: nat, current: string, nonRoot: bool)
    ensures Placeholder in RenderList(chapters, level, current, nonRoot) <==> chapters == [] && !nonRoot
    ensures chapters == [] && !nonRoot ==> RenderList(chapters, level, current, nonRoot) == [Placeholder]
  {
    ItemsGood(chapters, level, current);
  }

  /** Sibling order is kept: the rows of two runs of siblings are the rows of each, in order. */
  lemma {:induction false} SiblingsInOrder(a: seq<NavItem>, b: seq<NavItem>, level: nat, current: string)
    ensures RenderItems(a + b, level, current) == RenderItems(a, level, current) + RenderItems(b, level, current)
    decreases |a|
  {
    if a != [] {
      assert (a + b)[0] == a[0] && (a + b)[1..] == a[1..] + b;
      SiblingsInOrder(a[1..], b, level, current);
    } else {
      assert a + b == b;
    }
  }

  /**
   * Pre-order: a chapter's own row comes first, at its list's indent and
   * with its full `href`, followed directly by the rows of its subitems.
   */
  lemma ChapterBeforeItsSubitems(v: NavItem, level: nat, current: string)
    ensures var rows := RenderItem(v, level, current);
            && rows[0] == ChapterRow(v.href, Trim(v.navLabel), Indent(level), IsCurrent(current, v.href))
            && rows[1..] == (if v.subitems.Subitems? then RenderItems(v.subitems.items, level + 1, current) else [])
  {
  }

  // ---------------------------------------------------------------------
  // the button and its popover

  class ChaptersButton {
    var open: bool
    /** The `href`s handed to `onChapterClick`, in order. */
    var clicked: seq<string>

    constructor ()
      ensures !open && clicked == []
    {
      open := false;
      clicked := [];
    }

    /** The button's click handler. */
    method Open()
      modifies this`open
      ensures open
    {
      open := true;
    }

    /** The popover's `onClose`. */
    method Close()
      modifies this`open
      ensures !open
    {
      open := false;
    }

    /**
     * `handleChapterClick` for a clicked row: its full `href`, fragment
     * included, goes to the handler when there is one; the popover closes.
     */
    method ChapterClick(row: Row, hasHandler: bool)
      requires row.ChapterRow?
      modifies this`open, this`clicked
      ensures !open
      ensures clicked == old(clicked) + (if hasHandler then [row.href] else [])
    {
      if hasHandler {
        clicked := clicked + [row.href];
      }
      Close();
    }
  }
}
