/**
  Reconstruction of a gazette's table of contents from the text items of its PDF
  (src/utils/parse.ts). Three stages run one after the other:

  - the segmenter walks the items page by page and pushes the text of every item it
    keeps onto a flat list of strings (`blocks`); four-digit numbers get the
    `LINE_BREAK` sentinel appended;
  - the assembler groups those strings into entries: a string without the sentinel that
    comes first or right after a sentinel string opens an entry as its `id`, the
    following strings without the sentinel make up its `name`, and each sentinel string
    sets its `num`, a later one overwriting an earlier one;
  - the filter drops the entries whose trimmed `id` is the `HEADING` label.

  Each loop of the source is a method here, proved equal to a specification function;
  the properties of those functions are in module ParseProperties.
 */
module Parse {
  import opened Wrappers
  import opened JsString
  import opened Types

  /** The item text that switches recording on. */
  const TocMarker: string := "Tartalomjegyz\U{E9}k"

  /** The font height whose items switch recording off. */
  const ExcludedHeight: real := 10.0

  /** The phrase of a title that marks the Hivatalos Értesítő series. */
  const ErtesitoPhrase: string := "Hivatalos \U{C9}rtes\U{ED}t\U{151}"

  /**
    The two constants the parser imports from its `./const` module, whose values this
    model does not know: the number sentinel `LINE_BREAK` and the `HEADING` label.
   */
  datatype Config = Config(lineBreak: string, heading: string)

  /**
    An item of a page's text content: its text, its font height and, on text items
    only, the boolean `hasEOL` (marked-content items carry none).
   */
  datatype Item = Item(str: string, height: real, hasEol: Option<bool>)

  /** Writing `entries[-1].num`, which throws because `entries[-1]` is undefined. */
  datatype ParseError = NumberBeforeFirstEntry

  /** `assertIsPdfTextItem`: an item is a text item when its `hasEOL` is a boolean. */
  predicate IsPdfTextItem(item: Item) {
    item.hasEol.Some?
  }

  /** The document series named by a title; the parser computes it and never uses it. */
  function DocTypeOf(title: string): (d: DocType)
    ensures d == HivatalosErtesito <==> exists k :: OccursAt(title, ErtesitoPhrase, k)
  {
    IncludesSpec(title, ErtesitoPhrase);
    if Includes(title, ErtesitoPhrase) then HivatalosErtesito else MagyarKozlony
  }

  // ---------------------------------------------------------------------------
  // Segmenter

  /** The string pushed onto `blocks` for a kept item's text. */
  function Render(str: string, lb: string): string {
    (if IsFourDigits(str) then str + lb else str) + " "
  }

  /** The segmenter's state: the `record` flag and the `blocks` pushed so far. */
  datatype Segmentation = Segmentation(record: bool, blocks: seq<string>)

  const SegmentStart: Segmentation := Segmentation(false, [])

  /** What the `forEach` callback does with one item. */
  function SegmentStep(st: Segmentation, item: Item, lb: string): Segmentation {
    if !IsPdfTextItem(item) || Trim(item.str) == [] then st
    else if item.str == TocMarker then st.(record := true)
    else if !st.record || item.height == ExcludedHeight then st.(record := false)
    else st.(blocks := st.blocks + [Render(item.str, lb)])
  }

  /** The state after the callback has seen `items`, in order, from the initial state. */
  function SegmentRun(items: seq<Item>, lb: string): Segmentation {
    if items == [] then SegmentStart
    else SegmentStep(SegmentRun(items[..|items| - 1], lb), items[|items| - 1], lb)
  }

  /** The items of all pages, page after page. */
  function Flatten(pages: seq<seq<Item>>): seq<Item> {
    if pages == [] then [] else Flatten(pages[..|pages| - 1]) + pages[|pages| - 1]
  }

  function SegmentBlocks(pages: seq<seq<Item>>, lb: string): seq<string> {
    SegmentRun(Flatten(pages), lb).blocks
  }

  lemma SegmentRunSnoc(items: seq<Item>, x: Item, lb: string)
    ensures SegmentRun(items + [x], lb) == SegmentStep(SegmentRun(items, lb), x, lb)
  {
    assert (items + [x])[..|items|] == items;
  }

  /** The items seen after `j + 1` items of the current page: those after `j`, then item `j`. */
  lemma SeenSnoc(done: seq<Item>, page: seq<Item>, j: nat)
    requires j < |page|
    ensures done + page[..j + 1] == (done + page[..j]) + [page[j]]
  {
    assert page[..j + 1] == page[..j] + [page[j]];
  }

  /** The items of the first `i + 1` pages: those of the first `i`, then page `i`. */
  lemma FlattenPrefix(pages: seq<seq<Item>>, i: nat)
    requires i < |pages|
    ensures Flatten(pages[..i + 1]) == Flatten(pages[..i]) + pages[i]
  {
    assert pages[..i + 1][..i] == pages[..i];
  }

  /** The page loop of `parsePdf` with its `forEach` over each page's items. */
  method Segment(pages: seq<seq<Item>>, lb: string) returns (blocks: seq<string>)
    ensures blocks == SegmentBlocks(pages, lb)
  {
    var record := false;
    blocks := [];
    var i := 0;
    while i < |pages|
      invariant 0 <= i <= |pages|
      invariant Segmentation(record, blocks) == SegmentRun(Flatten(pages[..i]), lb)
    {
      var page := pages[i];
      ghost var done := Flatten(pages[..i]);
      var j := 0;
      assert done + page[..j] == done;
      while j < |page|
        invariant 0 <= j <= |page|
        invariant Segmentation(record, blocks) == SegmentRun(done + page[..j], lb)
      {
        var item := page[j];
        SeenSnoc(done, page, j);
        SegmentRunSnoc(done + page[..j], item, lb);
        if !IsPdfTextItem(item) {
        } else if Trim(item.str) == [] {
        } else if item.str == TocMarker {
          record := true;
        } else if !record || item.height == ExcludedHeight {
          record := false;
        } else {
          blocks := blocks + [Render(item.str, lb)];
        }
        j := j + 1;
      }
      assert page[..j] == page;
      FlattenPrefix(pages, i);
      i := i + 1;
    }
    assert pages[..i] == pages;
  }

  // ---------------------------------------------------------------------------
  // Assembler

  /** The strings of `bs` that carry no sentinel, concatenated in order. */
  function Names(bs: seq<string>, lb: string): string {
    if bs == [] then ""
    else Names(bs[..|bs| - 1], lb) + (if Includes(bs[|bs| - 1], lb) then "" else bs[|bs| - 1])
  }

  /** The last string of `bs` that carries the sentinel, without its first sentinel; "" if none. */
  function LastNum(bs: seq<string>, lb: string): string {
    if bs == [] then ""
    else if Includes(bs[|bs| - 1], lb) then RemoveFirst(bs[|bs| - 1], lb)
    else LastNum(bs[..|bs| - 1], lb)
  }

  /** An entry starts at `i`: a string without sentinel that comes first or right after one with. */
  predicate StartsEntry(blocks: seq<string>, lb: string, i: int)
    requires 0 <= i < |blocks|
  {
    !Includes(blocks[i], lb) && (i == 0 || Includes(blocks[i - 1], lb))
  }

  /** The positions where entries start, in increasing order. */
  function EntryStarts(blocks: seq<string>, lb: string): seq<nat> {
    if blocks == [] then []
    else
      var n := |blocks| - 1;
      EntryStarts(blocks[..n], lb) + (if StartsEntry(blocks, lb, n) then [n] else [])
  }

  /**
    The start positions are in range, strictly increasing, and include every position
    where an entry starts.
   */
  lemma {:induction false} EntryStartsSpec(blocks: seq<string>, lb: string)
    ensures var st := EntryStarts(blocks, lb);
            && (forall k :: 0 <= k < |st| ==> st[k] < |blocks| && StartsEntry(blocks, lb, st[k]))
            && (forall k, l :: 0 <= k < l < |st| ==> st[k] < st[l])
            && (forall i :: 0 <= i < |blocks| && StartsEntry(blocks, lb, i) ==> i in st)
  {
    if blocks != [] {
      var n := |blocks| - 1;
      EntryStartsSpec(blocks[..n], lb);
      assert forall i :: 0 <= i < n ==> (StartsEntry(blocks[..n], lb, i) <==> StartsEntry(blocks, lb, i));
    }
  }

  /** The entry made of the strings at positions `s` (the id) up to `e` (exclusive). */
  function EntryOf(blocks: seq<string>, lb: string, s: nat, e: nat): Entry
    requires s < e <= |blocks|
  {
    Entry(blocks[s], Names(blocks[s + 1..e], lb), LastNum(blocks[s + 1..e], lb))
  }

  /**
    The entries of `blocks`: one per start position, running up to the next start
    position or to the end.
   */
  function Grouped(blocks: seq<string>, lb: string): seq<Entry> {
    seq(|EntryStarts(blocks, lb)|, k requires 0 <= k < |EntryStarts(blocks, lb)| => EntryAt(blocks, lb, k))
  }

  /** The `k`-th entry: from the `k`-th start position up to where it ends. */
  function EntryAt(blocks: seq<string>, lb: string, k: nat): Entry
    requires k < |EntryStarts(blocks, lb)|
  {
    EntryOf(blocks, lb, EntryStarts(blocks, lb)[k], EntryEnd(blocks, lb, k))
  }

  /** Where the `k`-th entry ends: at the next start position, or after the last string. */
  function EntryEnd(blocks: seq<string>, lb: string, k: nat): (e: nat)
    requires k < |EntryStarts(blocks, lb)|
    ensures EntryStarts(blocks, lb)[k] < e <= |blocks|
  {
    EntryStartsSpec(blocks, lb);
    var st := EntryStarts(blocks, lb);
    if k + 1 < |st| then st[k + 1] else |blocks|
  }

  /**
    What the assembler loop produces: the one-entry placeholder list for no strings,
    the failure of `entries[-1]` when the first string carries the sentinel, the
    grouped entries otherwise.
   */
  function AssembleSpec(blocks: seq<string>, lb: string): Result<seq<Entry>, ParseError> {
    if blocks == [] then Success([EmptyEntry])
    else if Includes(blocks[0], lb) then Failure(NumberBeforeFirstEntry)
    else Success(Grouped(blocks, lb))
  }

  /** The start positions of `bs + [b]`: those of `bs`, and `|bs|` when `b` opens an entry. */
  lemma EntryStartsSnoc(bs: seq<string>, b: string, lb: string)
    ensures EntryStarts(bs + [b], lb) ==
            EntryStarts(bs, lb) + (if StartsEntry(bs + [b], lb, |bs|) then [|bs|] else [])
  {
    assert (bs + [b])[..|bs|] == bs;
  }

  lemma GroupedAt(bs: seq<string>, lb: string, k: nat)
    requires k < |EntryStarts(bs, lb)|
    ensures |Grouped(bs, lb)| == |EntryStarts(bs, lb)|
    ensures Grouped(bs, lb)[k] == EntryAt(bs, lb, k)
  {
  }

  /** Extending the strings by one leaves every entry that ends before the new string. */
  lemma EntryOfPrefix(bs: seq<string>, b: string, lb: string, s: nat, e: nat)
    requires s < e <= |bs|
    ensures EntryOf(bs + [b], lb, s, e) == EntryOf(bs, lb, s, e)
  {
    assert (bs + [b])[s + 1..e] == bs[s + 1..e];
  }

  lemma NamesSnoc(x: seq<string>, b: string, lb: string)
    ensures Names(x + [b], lb) == Names(x, lb) + (if Includes(b, lb) then "" else b)
  {
    assert (x + [b])[..|x|] == x;
  }

  lemma LastNumSnoc(x: seq<string>, b: string, lb: string)
    ensures LastNum(x + [b], lb) == if Includes(b, lb) then RemoveFirst(b, lb) else LastNum(x, lb)
  {
    assert (x + [b])[..|x|] == x;
  }

  /** Extending the strings by one extends the entry that runs to the end. */
  lemma EntryOfExtend(bs: seq<string>, b: string, lb: string, s: nat)
    requires s < |bs|
    ensures EntryOf(bs + [b], lb, s, |bs| + 1).id == EntryOf(bs, lb, s, |bs|).id
    ensures EntryOf(bs + [b], lb, s, |bs| + 1).name ==
            EntryOf(bs, lb, s, |bs|).name + (if Includes(b, lb) then "" else b)
    ensures EntryOf(bs + [b], lb, s, |bs| + 1).num ==
            if Includes(b, lb) then RemoveFirst(b, lb) else EntryOf(bs, lb, s, |bs|).num
  {
    var x := bs[s + 1..|bs|];
    assert (bs + [b])[s + 1..|bs| + 1] == x + [b];
    NamesSnoc(x, b, lb);
    LastNumSnoc(x, b, lb);
  }

  /** When the strings start with an id, the first position starts an entry. */
  lemma FirstStarts(bs: seq<string>, lb: string)
    requires bs != [] && !Includes(bs[0], lb)
    ensures |EntryStarts(bs, lb)| > 0
  {
    EntryStartsSpec(bs, lb);
    assert StartsEntry(bs, lb, 0);
  }

  /** When `b` does not open an entry, the start positions stay, and the last entry now ends after `b`. */
  lemma LastStartStays(bs: seq<string>, b: string, lb: string)
    requires bs != [] && !Includes(bs[0], lb)
    requires Includes(b, lb) || !Includes(bs[|bs| - 1], lb)
    ensures var n := |EntryStarts(bs, lb)|;
            n > 0 && EntryStarts(bs + [b], lb) == EntryStarts(bs, lb) &&
            EntryEnd(bs, lb, n - 1) == |bs| && EntryEnd(bs + [b], lb, n - 1) == |bs| + 1
  {
    FirstStarts(bs, lb);
    EntryStartsSnoc(bs, b, lb);
    assert !StartsEntry(bs + [b], lb, |bs|);
  }

  /** With the same start positions, the entries that end before `b` are unchanged. */
  lemma SameStartsAfter(bs: seq<string>, b: string, lb: string, k: nat)
    requires EntryStarts(bs + [b], lb) == EntryStarts(bs, lb)
    requires k + 1 < |EntryStarts(bs, lb)|
    ensures Grouped(bs + [b], lb)[k] == Grouped(bs, lb)[k]
  {
    GroupedAt(bs, lb, k);
    GroupedAt(bs + [b], lb, k);
    EntryOfPrefix(bs, b, lb, EntryStarts(bs, lb)[k], EntryEnd(bs, lb, k));
  }

  /** With the same start positions, the last entry grows by `b`. */
  lemma LastEntryAtExtended(bs: seq<string>, b: string, lb: string, n: nat)
    requires n == |EntryStarts(bs, lb)| > 0 && EntryStarts(bs + [b], lb) == EntryStarts(bs, lb)
    requires EntryEnd(bs, lb, n - 1) == |bs| && EntryEnd(bs + [b], lb, n - 1) == |bs| + 1
    ensures EntryAt(bs + [b], lb, n - 1) ==
              if Includes(b, lb) then EntryAt(bs, lb, n - 1).(num := RemoveFirst(b, lb))
              else EntryAt(bs, lb, n - 1).(name := EntryAt(bs, lb, n - 1).name + b)
  {
    var s := EntryStarts(bs, lb)[n - 1];
    EntryOfExtend(bs, b, lb, s);
  }

  /** When `b` does not open an entry, it extends the last entry of `bs`. */
  lemma LastEntryExtended(bs: seq<string>, b: string, lb: string)
    requires bs != [] && !Includes(bs[0], lb)
    requires Includes(b, lb) || !Includes(bs[|bs| - 1], lb)
    ensures var g := Grouped(bs, lb);
            |g| > 0 && |Grouped(bs + [b], lb)| == |g| &&
            Grouped(bs + [b], lb)[|g| - 1] ==
              if Includes(b, lb) then g[|g| - 1].(num := RemoveFirst(b, lb))
              else g[|g| - 1].(name := g[|g| - 1].name + b)
  {
    LastStartStays(bs, b, lb);
    var n := |EntryStarts(bs, lb)|;
    LastEntryAtExtended(bs, b, lb, n);
    GroupedAt(bs, lb, n - 1);
    GroupedAt(bs + [b], lb, n - 1);
  }

  /** The entries of `bs + [b]` when `b` carries the sentinel, or continues a title. */
  lemma GroupedExtendLast(bs: seq<string>, b: string, lb: string)
    requires bs != [] && !Includes(bs[0], lb)
    requires Includes(b, lb) || !Includes(bs[|bs| - 1], lb)
    ensures var g := Grouped(bs, lb);
            |g| > 0 &&
            Grouped(bs + [b], lb) ==
              g[|g| - 1 := if Includes(b, lb) then g[|g| - 1].(num := RemoveFirst(b, lb))
                           else g[|g| - 1].(name := g[|g| - 1].name + b)]
  {
    var g, g' := Grouped(bs, lb), Grouped(bs + [b], lb);
    LastEntryExtended(bs, b, lb);
    LastStartStays(bs, b, lb);
    forall k | 0 <= k < |g| - 1
      ensures g'[k] == g[k]
    {
      GroupedAt(bs, lb, k);
      SameStartsAfter(bs, b, lb, k);
    }
    UpdatedLast(g', g, g'[|g| - 1]);
  }

  /** Two sequences that agree except at the last position. */
  lemma UpdatedLast<T>(s': seq<T>, s: seq<T>, x: T)
    requires |s'| == |s| > 0 && s'[|s| - 1] == x
    requires forall k :: 0 <= k < |s| - 1 ==> s'[k] == s[k]
    ensures s' == s[|s| - 1 := x]
  {
  }

  /** The entries of `bs + [b]` when `b` opens a new entry. */
  lemma GroupedAddId(bs: seq<string>, b: string, lb: string)
    requires !Includes(b, lb) && (bs == [] || Includes(bs[|bs| - 1], lb))
    ensures Grouped(bs + [b], lb) == Grouped(bs, lb) + [Entry(b, "", "")]
  {
    EntryStartsSnoc(bs, b, lb);
    var st := EntryStarts(bs, lb);
    EntryStartsSpec(bs, lb);
    assert StartsEntry(bs + [b], lb, |bs|);
    assert EntryStarts(bs + [b], lb) == st + [|bs|];
    var g, g' := Grouped(bs, lb), Grouped(bs + [b], lb);
    var n := |st|;
    GroupedAt(bs + [b], lb, n);
    var want := g + [Entry(b, "", "")];
    forall k | 0 <= k < n + 1
      ensures g'[k] == want[k]
    {
      GroupedAt(bs + [b], lb, k);
      if k < n {
        GroupedAt(bs, lb, k);
        EntryOfPrefix(bs, b, lb, st[k], if k + 1 < n then st[k + 1] else |bs|);
      } else {
        assert (bs + [b])[|bs| + 1..|bs| + 1] == [];
      }
    }
  }

  /** The assembler's step for a string that carries the sentinel. */
  lemma NumberStep(blocks: seq<string>, i: nat, entries: seq<Entry>, lb: string)
    requires 0 < i < |blocks| && !Includes(blocks[0], lb) && Includes(blocks[i], lb)
    requires entries == Grouped(blocks[..i], lb)
    ensures |entries| > 0
    ensures entries[|entries| - 1 := entries[|entries| - 1].(num := RemoveFirst(blocks[i], lb))]
            == Grouped(blocks[..i + 1], lb)
  {
    assert blocks[..i + 1] == blocks[..i] + [blocks[i]];
    GroupedExtendLast(blocks[..i], blocks[i], lb);
  }

  /** The assembler's step for a string right after a sentinel string (or the first one). */
  lemma IdStep(blocks: seq<string>, i: nat, entries: seq<Entry>, lb: string)
    requires i < |blocks| && !Includes(blocks[i], lb) && (i == 0 || Includes(blocks[i - 1], lb))
    requires i > 0 ==> entries == Grouped(blocks[..i], lb)
    requires i == 0 ==> entries == []
    ensures entries + [Entry(blocks[i], "", "")] == Grouped(blocks[..i + 1], lb)
  {
    assert blocks[..i + 1] == blocks[..i] + [blocks[i]];
    GroupedAddId(blocks[..i], blocks[i], lb);
    assert i == 0 ==> Grouped(blocks[..i], lb) == [];
  }

  /** The assembler's step for a string that continues the current title. */
  lemma NameStep(blocks: seq<string>, i: nat, entries: seq<Entry>, lb: string)
    requires 0 < i < |blocks| && !Includes(blocks[0], lb)
    requires !Includes(blocks[i], lb) && !Includes(blocks[i - 1], lb)
    requires entries == Grouped(blocks[..i], lb)
    ensures |entries| > 0
    ensures entries[|entries| - 1 := entries[|entries| - 1].(name := entries[|entries| - 1].name + blocks[i])]
            == Grouped(blocks[..i + 1], lb)
  {
    assert blocks[..i + 1] == blocks[..i] + [blocks[i]];
    GroupedExtendLast(blocks[..i], blocks[i], lb);
  }

  /** The assembler loop of `parsePdf`, writing the entries of a JavaScript array by index. */
  method Assemble(blocks: seq<string>, lb: string) returns (r: Result<seq<Entry>, ParseError>)
    ensures r == AssembleSpec(blocks, lb)
  {
    var entries := [EmptyEntry];
    var entryIndex := -1;
    var hadLineBreak := true;
    var i := 0;
    while i < |blocks|
      invariant 0 <= i <= |blocks|
      invariant hadLineBreak <==> (i == 0 || Includes(blocks[i - 1], lb))
      invariant i == 0 ==> entryIndex == -1 && entries == [EmptyEntry]
      invariant i > 0 ==> !Includes(blocks[0], lb)
      invariant i > 0 ==> entries == Grouped(blocks[..i], lb) && 0 <= entryIndex == |entries| - 1
    {
      var b := blocks[i];
      if Includes(b, lb) {
        hadLineBreak := true;
        if entryIndex < 0 {
          return Failure(NumberBeforeFirstEntry);
        }
        NumberStep(blocks, i, entries, lb);
        entries := entries[entryIndex := entries[entryIndex].(num := RemoveFirst(b, lb))];
      } else if hadLineBreak {
        hadLineBreak := false;
        IdStep(blocks, i, if i == 0 then [] else entries, lb);
        entryIndex := entryIndex + 1;
        // Assigning at index `entries.length` appends; the first entry replaces the placeholder.
        entries := if entryIndex < |entries| then entries[entryIndex := EmptyEntry] else entries + [EmptyEntry];
        entries := entries[entryIndex := entries[entryIndex].(id := b)];
      } else {
        NameStep(blocks, i, entries, lb);
        entries := entries[entryIndex := entries[entryIndex].(name := entries[entryIndex].name + b)];
      }
      i := i + 1;
    }
    assert blocks[..i] == blocks;
    r := Success(entries);
  }

  // ---------------------------------------------------------------------------
  // Filter and the whole parser

  /** `entries.filter(e => e.id.trim() !== HEADING)`. */
  function FilterHeading(entries: seq<Entry>, heading: string): seq<Entry> {
    if entries == [] then []
    else
      var last := entries[|entries| - 1];
      FilterHeading(entries[..|entries| - 1], heading) + (if Trim(last.id) != heading then [last] else [])
  }

  /** The filter keeps exactly the entries whose trimmed id is not the heading. */
  lemma {:induction false} FilterHeadingMembers(entries: seq<Entry>, heading: string)
    ensures var r := FilterHeading(entries, heading);
            |r| <= |entries| && forall e :: e in r <==> e in entries && Trim(e.id) != heading
  {
    if entries != [] {
      var p := entries[..|entries| - 1];
      FilterHeadingMembers(p, heading);
      assert entries == p + [entries[|entries| - 1]];
    }
  }

  /** The result of `parsePdf` for a document with the given pages. */
  function ParseSpec(pages: seq<seq<Item>>, cfg: Config): Result<seq<Entry>, ParseError> {
    match AssembleSpec(SegmentBlocks(pages, cfg.lineBreak), cfg.lineBreak)
    case Failure(e) => Failure(e)
    case Success(entries) => Success(FilterHeading(entries, cfg.heading))
  }

  /** `parsePdf`, with the pages the PDF library would deliver passed in. */
  method ParsePdf(title: string, pages: seq<seq<Item>>, cfg: Config) returns (r: Result<seq<Entry>, ParseError>)
    ensures r == ParseSpec(pages, cfg)
  {
    var docType := DocTypeOf(title);
    var blocks := Segment(pages, cfg.lineBreak);
    var assembled := Assemble(blocks, cfg.lineBreak);
    match assembled
    case Failure(e) =>
      r := Failure(e);
    case Success(entries) =>
      r := Success(FilterHeading(entries, cfg.heading));
  }
}
