/**
  What the table-of-contents parser of src/utils/parse.ts guarantees, proved about the
  specification functions of module Parse (which its methods are proved to compute).

  The segmenter is characterised without its state machine: an item is kept exactly
  when it is a non-blank text item other than the marker, its height is not 10, and a
  marker item came before it with no non-blank, non-marker text item of height 10 in
  between.
 */
module ParseProperties {
  import opened Wrappers
  import opened JsString
  import opened Types
  import opened Parse

  // ---------------------------------------------------------------------------
  // Segmenter

  /** The item that switches recording on. */
  predicate IsMarker(item: Item) {
    IsPdfTextItem(item) && item.str == TocMarker
  }

  /** A non-blank text item other than the marker: the only kind that can be pushed. */
  predicate IsContent(item: Item) {
    IsPdfTextItem(item) && Trim(item.str) != [] && item.str != TocMarker
  }

  /** A content item of the excluded height: it switches recording off. */
  predicate IsStop(item: Item) {
    IsContent(item) && item.height == ExcludedHeight
  }

  /** Before position `k`, some marker came after which no stop item was seen. */
  ghost predicate RecordingAt(items: seq<Item>, k: nat)
    requires k <= |items|
  {
    exists j :: 0 <= j < k && IsMarker(items[j]) && forall m :: j < m < k ==> !IsStop(items[m])
  }

  /** The item at position `k` is pushed onto `blocks`. */
  ghost predicate Kept(items: seq<Item>, k: nat)
    requires k < |items|
  {
    IsContent(items[k]) && items[k].height != ExcludedHeight && RecordingAt(items, k)
  }

  /** The kept items among the first `n`, in order. */
  ghost function KeptItems(items: seq<Item>, n: nat): seq<Item>
    requires n <= |items|
  {
    if n == 0 then []
    else KeptItems(items, n - 1) + (if Kept(items, n - 1) then [items[n - 1]] else [])
  }

  /** The strings pushed for `xs`, one per item and in the same order. */
  function RenderAll(xs: seq<Item>, lb: string): seq<string> {
    seq(|xs|, i requires 0 <= i < |xs| => Render(xs[i].str, lb))
  }

  lemma MarkerIsNotBlank()
    ensures Trim(TocMarker) != []
  {
    TrimSpec(TocMarker);
    assert !IsWhiteSpace(TocMarker[0]);
  }

  /** How the recording condition moves past one more item. */
  lemma RecordingStep(items: seq<Item>, k: nat)
    requires k < |items|
    ensures IsMarker(items[k]) ==> RecordingAt(items, k + 1)
    ensures IsStop(items[k]) ==> !RecordingAt(items, k + 1)
    ensures !IsMarker(items[k]) && !IsStop(items[k]) ==>
              (RecordingAt(items, k + 1) <==> RecordingAt(items, k))
  {
    if IsMarker(items[k]) {
    } else if IsStop(items[k]) {
      forall j | 0 <= j < k + 1 && IsMarker(items[j])
        ensures exists m :: j < m < k + 1 && IsStop(items[m])
      {
        assert IsStop(items[k]);
      }
    } else {
      if RecordingAt(items, k + 1) {
        var j :| 0 <= j < k + 1 && IsMarker(items[j]) && forall m :: j < m < k + 1 ==> !IsStop(items[m]);
        assert j < k;
      }
      if RecordingAt(items, k) {
        var j :| 0 <= j < k && IsMarker(items[j]) && forall m :: j < m < k ==> !IsStop(items[m]);
        assert forall m :: j < m < k + 1 ==> !IsStop(items[m]);
      }
    }
  }

  lemma RenderAllSnoc(xs: seq<Item>, x: Item, lb: string)
    ensures RenderAll(xs + [x], lb) == RenderAll(xs, lb) + [Render(x.str, lb)]
  {
  }

  /**
    After the first `k` items, the segmenter records exactly when the recording
    condition holds, and has pushed the rendering of exactly the kept items.
   */
  lemma {:induction false} SegmentRunAt(items: seq<Item>, k: nat, lb: string)
    requires k <= |items|
    ensures SegmentRun(items[..k], lb) ==
            Segmentation(RecordingAt(items, k), RenderAll(KeptItems(items, k), lb))
  {
    if k == 0 {
      assert items[..0] == [];
    } else {
      SegmentRunAt(items, k - 1, lb);
      assert items[..k][..k - 1] == items[..k - 1];
      var x := items[k - 1];
      RecordingStep(items, k - 1);
      MarkerIsNotBlank();
      if Kept(items, k - 1) {
        RenderAllSnoc(KeptItems(items, k - 1), x, lb);
      } else {
        assert KeptItems(items, k) == KeptItems(items, k - 1);
      }
    }
  }

  /** The segmenter pushes the rendering of exactly the kept items of all pages, in order. */
  lemma SegmentKeepsExactly(pages: seq<seq<Item>>, lb: string)
    ensures var items := Flatten(pages);
            SegmentBlocks(pages, lb) == RenderAll(KeptItems(items, |items|), lb)
  {
    var items := Flatten(pages);
    SegmentRunAt(items, |items|, lb);
    assert items[..|items|] == items;
  }

  /** No marker, blank, non-text or height-10 item is ever pushed. */
  lemma {:induction false} KeptItemsAreContent(items: seq<Item>, n: nat)
    requires n <= |items|
    ensures forall x :: x in KeptItems(items, n) ==> IsContent(x) && x.height != ExcludedHeight
  {
    if n > 0 {
      KeptItemsAreContent(items, n - 1);
    }
  }

  /** Until the first marker, nothing is pushed and recording stays off. */
  lemma {:induction false} NothingBeforeMarker(items: seq<Item>, k: nat, lb: string)
    requires k <= |items|
    requires forall j :: 0 <= j < k ==> !IsMarker(items[j])
    ensures SegmentRun(items[..k], lb) == SegmentStart
  {
    if k > 0 {
      NothingBeforeMarker(items, k - 1, lb);
      assert items[..k][..k - 1] == items[..k - 1];
    }
  }

  /**
    A non-blank text item of height 10 other than the marker switches recording off:
    from it up to the next marker, nothing more is pushed.
   */
  lemma {:induction false} StopSilencesUntilMarker(items: seq<Item>, j: nat, k: nat, lb: string)
    requires j < k <= |items| && IsStop(items[j])
    requires forall m :: j < m < k ==> !IsMarker(items[m])
    ensures SegmentRun(items[..k], lb) == Segmentation(false, SegmentRun(items[..j], lb).blocks)
  {
    assert items[..k][..k - 1] == items[..k - 1];
    if k - 1 > j {
      StopSilencesUntilMarker(items, j, k - 1, lb);
      MarkerIsNotBlank();
    } else {
      MarkerIsNotBlank();
    }
  }

  /** Pages are read in order: the items of `p + q` are those of `p`, then those of `q`. */
  lemma {:induction false} FlattenConcat(p: seq<seq<Item>>, q: seq<seq<Item>>)
    ensures Flatten(p + q) == Flatten(p) + Flatten(q)
    decreases |q|
  {
    if q == [] {
      assert p + q == p;
    } else {
      var q' := q[..|q| - 1];
      assert (p + q)[..|p + q| - 1] == p + q';
      FlattenConcat(p, q');
    }
  }

  /**
    A four-digit text is pushed with the sentinel, and the assembler's
    `replace(LINE_BREAK, '')` gives back the text with its trailing space, provided
    the sentinel does not start with a digit.
   */
  lemma RenderedNumber(str: string, lb: string)
    requires IsFourDigits(str)
    ensures Includes(Render(str, lb), lb)
    ensures lb != [] && !IsAsciiDigit(lb[0]) ==> RemoveFirst(Render(str, lb), lb) == str + " "
  {
    var r := Render(str, lb);
    IncludesSpec(r, lb);
    RemoveFirstSpec(r, lb);
    assert r == str + lb + " ";
    assert r[4..4 + |lb|] == lb;
    assert OccursAt(r, lb, 4);
    if lb != [] && !IsAsciiDigit(lb[0]) {
      OccursAtHead(r, lb);
      forall j | 0 <= j < 4
        ensures !OccursAt(r, lb, j)
      {
        assert r[j] == str[j];
      }
      assert r[..4] == str && r[4 + |lb|..] == " ";
    }
  }

  /** An occurrence of a non-empty pattern begins with the pattern's first character. */
  lemma OccursAtHead(s: string, p: string)
    requires p != []
    ensures forall k :: OccursAt(s, p, k) ==> s[k] == p[0]
  {
    forall k | OccursAt(s, p, k)
      ensures s[k] == p[0]
    {
      assert s[k..k + |p|][0] == s[k];
    }
  }

  /**
    What the segmenter pushes for its `k`-th kept item: a four-digit text followed by the
    sentinel and a space, any other text followed by one space.
   */
  lemma PushedStrings(pages: seq<seq<Item>>, lb: string, k: nat)
    requires k < |KeptItems(Flatten(pages), |Flatten(pages)|)|
    ensures var kept := KeptItems(Flatten(pages), |Flatten(pages)|);
            var blocks := SegmentBlocks(pages, lb);
            && |blocks| == |kept|
            && (IsFourDigits(kept[k].str) ==> blocks[k] == kept[k].str + lb + " ")
            && (!IsFourDigits(kept[k].str) ==> blocks[k] == kept[k].str + " ")
  {
    SegmentKeepsExactly(pages, lb);
  }

  // ---------------------------------------------------------------------------
  // Assembler

  /** The ids and names of `es`, concatenated in order. */
  function EntryText(es: seq<Entry>): string {
    if es == [] then "" else EntryText(es[..|es| - 1]) + es[|es| - 1].id + es[|es| - 1].name
  }

  lemma EntryTextUpdateLast(es: seq<Entry>, e: Entry)
    requires es != []
    ensures EntryText(es[|es| - 1 := e]) == EntryText(es[..|es| - 1]) + e.id + e.name
  {
    assert es[|es| - 1 := e][..|es| - 1] == es[..|es| - 1];
  }

  lemma EntryTextSnoc(es: seq<Entry>, e: Entry)
    ensures EntryText(es + [e]) == EntryText(es) + e.id + e.name
  {
    assert (es + [e])[..|es|] == es;
  }

  /** A string that opens an entry adds its text as the new entry's id. */
  lemma GroupedTextAddId(p: seq<string>, b: string, lb: string)
    requires !Includes(b, lb) && (p == [] || Includes(p[|p| - 1], lb))
    ensures EntryText(Grouped(p + [b], lb)) == EntryText(Grouped(p, lb)) + b
  {
    GroupedAddId(p, b, lb);
    EntryTextSnoc(Grouped(p, lb), Entry(b, "", ""));
  }

  /** Any other string adds its text to the last entry's name, or nothing if it carries the sentinel. */
  lemma GroupedTextExtend(p: seq<string>, b: string, lb: string)
    requires p != [] && !Includes(p[0], lb)
    requires Includes(b, lb) || !Includes(p[|p| - 1], lb)
    ensures EntryText(Grouped(p + [b], lb)) == EntryText(Grouped(p, lb)) + (if Includes(b, lb) then "" else b)
  {
    GroupedExtendLast(p, b, lb);
    var g := Grouped(p, lb);
    var last := g[|g| - 1];
    var front := EntryText(g[..|g| - 1]);
    assert EntryText(g) == front + last.id + last.name;
    if Includes(b, lb) {
      EntryTextUpdateLast(g, last.(num := RemoveFirst(b, lb)));
      assert EntryText(g) + "" == EntryText(g);
    } else {
      EntryTextUpdateLast(g, last.(name := last.name + b));
      ConcatAssoc(front + last.id, last.name, b);
    }
  }

  lemma ConcatAssoc(x: string, y: string, z: string)
    ensures x + (y + z) == x + y + z
  {
  }

  /** Grouping loses and reorders nothing: the ids and names spell out the non-sentinel strings. */
  lemma {:induction false} GroupedText(bs: seq<string>, lb: string)
    requires bs != [] && !Includes(bs[0], lb)
    ensures EntryText(Grouped(bs, lb)) == Names(bs, lb)
    decreases |bs|
  {
    var p, b := bs[..|bs| - 1], bs[|bs| - 1];
    assert bs == p + [b];
    NamesSnoc(p, b, lb);
    if p == [] {
      GroupedTextAddId(p, b, lb);
      assert Grouped(p, lb) == [];
    } else {
      assert p[0] == bs[0];
      GroupedText(p, lb);
      if !Includes(b, lb) && Includes(p[|p| - 1], lb) {
        GroupedTextAddId(p, b, lb);
      } else {
        GroupedTextExtend(p, b, lb);
      }
    }
  }

  /**
    The assembler preserves content: when it succeeds, the ids and names of its entries
    concatenate to the strings of `blocks` without sentinel, in order.
   */
  lemma AssembledText(blocks: seq<string>, lb: string)
    requires AssembleSpec(blocks, lb).Success?
    ensures EntryText(AssembleSpec(blocks, lb).value) == Names(blocks, lb)
  {
    if blocks == [] {
      assert EntryText([EmptyEntry]) == "";
    } else {
      GroupedText(blocks, lb);
    }
  }

  /** The number of an entry stays empty when its run has no sentinel string. */
  lemma {:induction false} LastNumNone(x: seq<string>, lb: string)
    requires forall j :: 0 <= j < |x| ==> !Includes(x[j], lb)
    ensures LastNum(x, lb) == ""
    decreases |x|
  {
    if x != [] {
      var p := x[..|x| - 1];
      assert forall j :: 0 <= j < |p| ==> p[j] == x[j];
      LastNumNone(p, lb);
    }
  }

  /**
    The number of an entry is its last sentinel string with the first sentinel removed:
    a later sentinel string overwrites an earlier one.
   */
  lemma {:induction false} LastNumAt(x: seq<string>, lb: string, j: nat)
    requires j < |x| && Includes(x[j], lb)
    requires forall m :: j < m < |x| ==> !Includes(x[m], lb)
    ensures LastNum(x, lb) == RemoveFirst(x[j], lb)
    decreases |x|
  {
    if j < |x| - 1 {
      var p := x[..|x| - 1];
      assert !Includes(x[|x| - 1], lb);
      assert forall m :: j <= m < |p| ==> p[m] == x[m];
      LastNumAt(p, lb, j);
    }
  }

  /** The number of the entry made of positions `s` to `e` comes from its last sentinel string. */
  lemma EntryOfNum(blocks: seq<string>, lb: string, s: nat, e: nat, j: nat)
    requires s < j < e <= |blocks| && Includes(blocks[j], lb)
    requires forall m :: j < m < e ==> !Includes(blocks[m], lb)
    ensures EntryOf(blocks, lb, s, e).num == RemoveFirst(blocks[j], lb)
  {
    var x := blocks[s + 1..e];
    assert x[j - s - 1] == blocks[j];
    forall m | j - s - 1 < m < |x|
      ensures !Includes(x[m], lb)
    {
      assert x[m] == blocks[s + 1 + m];
    }
    LastNumAt(x, lb, j - s - 1);
  }

  /** The number of the entry made of positions `s` to `e` is empty when no string there carries the sentinel. */
  lemma EntryOfNumEmpty(blocks: seq<string>, lb: string, s: nat, e: nat)
    requires s < e <= |blocks|
    requires forall m :: s < m < e ==> !Includes(blocks[m], lb)
    ensures EntryOf(blocks, lb, s, e).num == ""
  {
    var x := blocks[s + 1..e];
    assert forall m :: 0 <= m < |x| ==> x[m] == blocks[s + 1 + m];
    LastNumNone(x, lb);
  }

  /**
    The number of the `k`-th assembled entry is the last sentinel string of its run, with
    its first sentinel removed.
   */
  lemma AssembledNum(blocks: seq<string>, lb: string, k: nat, j: nat)
    requires AssembleSpec(blocks, lb).Success? && k < |EntryStarts(blocks, lb)|
    requires var e := EntryEnd(blocks, lb, k);
             EntryStarts(blocks, lb)[k] < j < e && Includes(blocks[j], lb) &&
             forall m :: j < m < e ==> !Includes(blocks[m], lb)
    ensures AssembleSpec(blocks, lb).value[k].num == RemoveFirst(blocks[j], lb)
  {
    GroupedAt(blocks, lb, k);
    EntryOfNum(blocks, lb, EntryStarts(blocks, lb)[k], EntryEnd(blocks, lb, k), j);
  }

  /** The `k`-th assembled entry keeps an empty number when its run has no sentinel string. */
  lemma AssembledNumEmpty(blocks: seq<string>, lb: string, k: nat)
    requires AssembleSpec(blocks, lb).Success? && k < |EntryStarts(blocks, lb)|
    requires forall m :: EntryStarts(blocks, lb)[k] < m < EntryEnd(blocks, lb, k) ==> !Includes(blocks[m], lb)
    ensures AssembleSpec(blocks, lb).value[k].num == ""
  {
    GroupedAt(blocks, lb, k);
    EntryOfNumEmpty(blocks, lb, EntryStarts(blocks, lb)[k], EntryEnd(blocks, lb, k));
  }

  // ---------------------------------------------------------------------------
  // Filter

  /** The filter keeps the order: filtering a concatenation concatenates the filtered parts. */
  lemma {:induction false} FilterConcat(a: seq<Entry>, b: seq<Entry>, heading: string)
    ensures FilterHeading(a + b, heading) == FilterHeading(a, heading) + FilterHeading(b, heading)
    decreases |b|
  {
    if b == [] {
      assert a + b == a;
    } else {
      var b' := b[..|b| - 1];
      assert (a + b)[..|a + b| - 1] == a + b';
      FilterConcat(a, b', heading);
    }
  }

  /** Entries whose trimmed id is not the heading all survive, unchanged and in order. */
  lemma {:induction false} FilterKeepsOthers(es: seq<Entry>, heading: string)
    requires forall e :: e in es ==> Trim(e.id) != heading
    ensures FilterHeading(es, heading) == es
  {
    if es != [] {
      var p, last := es[..|es| - 1], es[|es| - 1];
      assert es == p + [last];
      FilterKeepsOthers(p, heading);
      assert last in es;
    }
  }

  /** An entry opened by a token whose trimmed text is the heading never survives. */
  lemma HeadingTokenDropped(es: seq<Entry>, str: string, heading: string)
    requires Trim(str) == heading
    ensures forall e :: e in FilterHeading(es, heading) ==> e.id != str + " "
  {
    TrimAppendSpace(str);
    FilterHeadingMembers(es, heading);
  }

  // ---------------------------------------------------------------------------
  // The whole parser

  /**
    When no string is pushed, the result is the single empty placeholder entry, dropped
    only when the heading label is itself empty.
   */
  lemma NoBlocksGivesPlaceholder(pages: seq<seq<Item>>, cfg: Config)
    requires SegmentBlocks(pages, cfg.lineBreak) == []
    ensures ParseSpec(pages, cfg) == Success(if cfg.heading == "" then [] else [EmptyEntry])
  {
    assert Trim(EmptyEntry.id) == "";
    assert [EmptyEntry][..0] == [];
    assert FilterHeading([EmptyEntry], cfg.heading) == (if cfg.heading != "" then [EmptyEntry] else []);
  }

  /** In particular, so does a document without the marker, such as one with no pages. */
  lemma NoMarkerGivesPlaceholder(pages: seq<seq<Item>>, cfg: Config)
    requires forall j :: 0 <= j < |Flatten(pages)| ==> !IsMarker(Flatten(pages)[j])
    ensures ParseSpec(pages, cfg) == Success(if cfg.heading == "" then [] else [EmptyEntry])
  {
    var items := Flatten(pages);
    NothingBeforeMarker(items, |items|, cfg.lineBreak);
    assert items[..|items|] == items;
    NoBlocksGivesPlaceholder(pages, cfg);
  }

  /**
    The parser fails exactly when the first kept item is pushed as a string that
    contains the sentinel: the assembler then writes the number of `entries[-1]`.
   */
  lemma ParseFailsIff(pages: seq<seq<Item>>, cfg: Config)
    ensures var items := Flatten(pages);
            var kept := KeptItems(items, |items|);
            ParseSpec(pages, cfg).Failure? <==>
              kept != [] && Includes(Render(kept[0].str, cfg.lineBreak), cfg.lineBreak)
  {
    SegmentKeepsExactly(pages, cfg.lineBreak);
  }

  /** In particular, a table of contents whose first kept token is a four-digit number fails. */
  lemma FirstNumberFails(pages: seq<seq<Item>>, cfg: Config)
    requires var items := Flatten(pages);
             var kept := KeptItems(items, |items|);
             kept != [] && IsFourDigits(kept[0].str)
    ensures ParseSpec(pages, cfg).Failure?
  {
    var items := Flatten(pages);
    ParseFailsIff(pages, cfg);
    RenderedNumber(KeptItems(items, |items|)[0].str, cfg.lineBreak);
  }

  // ---------------------------------------------------------------------------
  // A page with one entry

  /** An ordinary line of the table of contents: a content item that is not a number. */
  predicate IsTitleText(str: string) {
    Trim(str) != [] && str != TocMarker && !IsFourDigits(str)
  }

  /** The marker, an act label, its title and its year on one page, none of them of height 10. */
  function EntryPage(id: string, title: string, year: string, h: real): seq<Item> {
    [Item(TocMarker, h, Some(false)), Item(id, h, Some(false)), Item(title, h, Some(false)), Item(year, h, Some(true))]
  }

  /** A content item of another height than 10, seen while recording, is pushed. */
  lemma PushedWhileRecording(st: Segmentation, x: Item, lb: string)
    requires st.record && IsContent(x) && x.height != ExcludedHeight
    ensures SegmentStep(st, x, lb) == Segmentation(true, st.blocks + [Render(x.str, lb)])
  {
  }

  lemma EntryPageSegment(id: string, title: string, year: string, h: real, lb: string)
    requires IsTitleText(id) && IsTitleText(title) && IsFourDigits(year) && h != ExcludedHeight
    ensures SegmentBlocks([EntryPage(id, title, year, h)], lb) == [id + " ", title + " ", year + lb + " "]
  {
    var m, a, t, y := Item(TocMarker, h, Some(false)), Item(id, h, Some(false)), Item(title, h, Some(false)), Item(year, h, Some(true));
    var none: seq<Item> := [];
    var pages: seq<seq<Item>> := [EntryPage(id, title, year, h)];
    assert Flatten(pages) == none + [m] + [a] + [t] + [y] by {
      assert pages[..0] == [];
    }
    MarkerIsNotBlank();
    SegmentRunSnoc(none, m, lb);
    assert SegmentRun(none + [m], lb) == Segmentation(true, []);
    SegmentRunSnoc(none + [m], a, lb);
    PushedWhileRecording(Segmentation(true, []), a, lb);
    SegmentRunSnoc(none + [m] + [a], t, lb);
    PushedWhileRecording(Segmentation(true, [id + " "]), t, lb);
    var before := Segmentation(true, [id + " ", title + " "]);
    assert SegmentRun(none + [m] + [a] + [t], lb) == before;
    SegmentRunSnoc(none + [m] + [a] + [t], y, lb);
    FourDigitsAreContent(y);
    PushedWhileRecording(before, y, lb);
    assert before.blocks + [Render(year, lb)] == [id + " ", title + " ", year + lb + " "];
  }

  /** A four-digit text item is never blank and never the marker. */
  lemma FourDigitsAreContent(x: Item)
    requires IsPdfTextItem(x) && IsFourDigits(x.str)
    ensures IsContent(x)
  {
    assert |x.str| != |TocMarker|;
    TrimSpec(x.str);
    assert !IsWhiteSpace(x.str[0]);
  }

  lemma EntryPageAssemble(b1: string, b2: string, year: string, lb: string)
    requires IsFourDigits(year) && lb != [] && !IsAsciiDigit(lb[0])
    requires !Includes(b1, lb) && !Includes(b2, lb)
    ensures AssembleSpec([b1, b2, year + lb + " "], lb) == Success([Entry(b1, b2, year + " ")])
  {
    var b3 := year + lb + " ";
    RenderedNumber(year, lb);
    assert Render(year, lb) == b3;
    var none: seq<string> := [];
    GroupedAddId(none, b1, lb);
    assert none + [b1] == [b1] && [b1] + [b2] == [b1, b2] && [b1, b2] + [b3] == [b1, b2, b3];
    assert Grouped([b1], lb) == [Entry(b1, "", "")];
    GroupedExtendLast([b1], b2, lb);
    assert "" + b2 == b2;
    assert Grouped([b1, b2], lb) == [Entry(b1, b2, "")];
    GroupedExtendLast([b1, b2], b3, lb);
    assert Grouped([b1, b2, b3], lb) == [Entry(b1, b2, RemoveFirst(b3, lb))];
    assert RemoveFirst(b3, lb) == year + " ";
    assert [b1, b2, b3][0] == b1;
  }

  /**
    A page holding the marker, an act label, its title and its four-digit year gives a
    single entry. Every field keeps the space the segmenter appends, so the number is
    the year followed by a space.
   */
  lemma OneEntryPage(id: string, title: string, year: string, h: real, cfg: Config)
    requires IsTitleText(id) && IsTitleText(title) && IsFourDigits(year) && h != ExcludedHeight
    requires cfg.lineBreak != [] && !IsAsciiDigit(cfg.lineBreak[0])
    requires !Includes(id + " ", cfg.lineBreak) && !Includes(title + " ", cfg.lineBreak)
    requires Trim(id + " ") != cfg.heading
    ensures ParseSpec([EntryPage(id, title, year, h)], cfg) == Success([Entry(id + " ", title + " ", year + " ")])
  {
    EntryPageSegment(id, title, year, h, cfg.lineBreak);
    EntryPageAssemble(id + " ", title + " ", year, cfg.lineBreak);
    FilterKeepsOthers([Entry(id + " ", title + " ", year + " ")], cfg.heading);
  }
}
