/** Bounded pages with offset cursors and stable item cursors. */
module Pagination {
  import opened Wrappers
  import opened Text

  const USIZE_MAX := 0xffff_ffff_ffff_ffff
  type usize = x: int | 0 <= x <= USIZE_MAX

  datatype Page<T> = Page(
    items: seq<T>, limit: nat, offset: nat, cursor: Option<string>, nextCursor: Option<string>,
    total: nat, hasMore: bool, omitted: nat)

  datatype Fault = InvalidCursor | CursorGone

  function Min(a: nat, b: nat): nat {
    if a <= b then a else b
  }

  function Gap(a: int, b: int): nat {
    if a <= b then b - a else a - b
  }

  /** The admissible page size nearest to the requested one. */
  function Clamp(requested: usize): (limit: nat)
    ensures 1 <= limit <= 500
    ensures forall size :: 1 <= size <= 500 ==> Gap(requested, limit) <= Gap(requested, size)
  {
    if requested < 1 then 1 else if requested > 500 then 500 else requested
  }

  function SaturatingAdd(a: nat, b: nat): nat {
    Min(a + b, USIZE_MAX)
  }

  /** Skip `offset` elements, then take `limit`. */
  function Slice<T>(items: seq<T>, offset: nat, limit: nat): seq<T> {
    items[Min(offset, |items|)..Min(offset + limit, |items|)]
  }

  function Consumed<T>(items: seq<T>, offset: nat, page: seq<T>): nat {
    Min(SaturatingAdd(offset, |page|), |items|)
  }

  /** `paginate_collection`: continue by offset. */
  function PaginateCollection<T>(items: seq<T>, offset: usize, requestedLimit: usize): Page<T> {
    var limit := Clamp(requestedLimit);
    var page := Slice(items, offset, limit);
    var consumed := Consumed(items, offset, page);
    Page(page, limit, offset, None,
         if consumed < |items| then Some("offset:" + Digits(consumed)) else None,
         |items|, consumed < |items|, |items| - consumed)
  }

  // ---------------------------------------------------------------- cursors

  /** Unsigned decimal parsing: an optional plus sign, at least one digit, in range. */
  function ParseUsize(s: string): Option<usize> {
    var digits := if s != [] && s[0] == '+' then s[1..] else s;
    if digits == [] || !AllDigits(digits) then None
    else if Value(digits) > USIZE_MAX then None
    else Some(Value(digits))
  }

  function StripPrefix(prefix: string, s: string): string {
    if prefix <= s then s[|prefix|..] else s
  }

  /** Index of the first item with the given cursor. */
  function Position<T>(items: seq<T>, cursorOf: T -> string, value: string): (at: Option<nat>)
    ensures at.Some? ==> at.value < |items| && cursorOf(items[at.value]) == value
    ensures at.Some? ==> forall i :: 0 <= i < at.value ==> cursorOf(items[i]) != value
    ensures at.None? ==> forall i :: 0 <= i < |items| ==> cursorOf(items[i]) != value
  {
    if items == [] then None
    else if cursorOf(items[0]) == value then Some(0)
    else match Position(items[1..], cursorOf, value)
      case None =>
        assert forall i :: 0 < i < |items| ==> items[i] == items[1..][i - 1];
        None
      case Some(i) =>
        assert forall k :: 0 < k < |items| ==> items[k] == items[1..][k - 1];
        Some(i + 1)
  }

  /** Where a request starts: after the cursor item, at a parsed offset, or at the requested offset. */
  function StartOf<T>(prefix: string, items: seq<T>, cursorOf: T -> string,
                      requestedOffset: Option<usize>, cursor: Option<string>): Result<usize, Fault>
    requires |items| <= USIZE_MAX
  {
    match cursor
    case None => Ok(if requestedOffset.Some? then requestedOffset.value else 0)
    case Some(value) =>
      if prefix <= value then
        match Position(items, cursorOf, value)
        case Some(at) => Ok(at + 1)
        case None => Err(CursorGone)
      else
        match ParseUsize(StripPrefix("offset:", value))
        case Some(offset) => Ok(offset)
        case None => Err(InvalidCursor)
  }

  function LastCursor<T>(page: seq<T>, cursorOf: T -> string): Option<string> {
    if page == [] then None else Some(cursorOf(page[|page| - 1]))
  }

  /** `paginate_references`, whose item cursors start with `prefix`. */
  function PaginateItems<T>(prefix: string, items: seq<T>, cursorOf: T -> string,
                            requestedOffset: Option<usize>, cursor: Option<string>,
                            requestedLimit: usize): Result<Page<T>, Fault>
    requires |items| <= USIZE_MAX
  {
    match StartOf(prefix, items, cursorOf, requestedOffset, cursor)
    case Err(fault) => Err(fault)
    case Ok(offset) =>
      var limit := Clamp(requestedLimit);
      var page := Slice(items, offset, limit);
      var consumed := Consumed(items, offset, page);
      var hasMore := consumed < |items|;
      Ok(Page(page, limit, offset, cursor, if hasMore then LastCursor(page, cursorOf) else None,
              |items|, hasMore, |items| - consumed))
  }

  /** `paginate_related`: a collection page whose cursor is replaced by the last item's. */
  function PaginateRelated<T>(items: seq<T>, cursorOf: T -> string, requestedOffset: Option<usize>,
                              cursor: Option<string>, requestedLimit: usize): Result<Page<T>, Fault>
    requires |items| <= USIZE_MAX
  {
    match StartOf("related:", items, cursorOf, requestedOffset, cursor)
    case Err(fault) => Err(fault)
    case Ok(offset) =>
      var response := PaginateCollection(items, offset, requestedLimit).(cursor := cursor);
      Ok(if response.hasMore then response.(nextCursor := LastCursor(response.items, cursorOf)) else response)
  }

  datatype Impact<S, C> = Impact(summary: S, callers: seq<C>)

  /** `paginate_impact`: the callers are paged, the aggregate summary stays whole. */
  function PaginateImpact<S, C>(impact: Impact<S, C>, cursorOf: C -> string, requestedOffset: Option<usize>,
                                cursor: Option<string>, requestedLimit: usize)
    : Result<(Impact<S, C>, Page<C>), Fault>
    requires |impact.callers| <= USIZE_MAX
  {
    var total := |impact.callers|;
    match StartOf("impact:", impact.callers, cursorOf, requestedOffset, cursor)
    case Err(fault) => Err(fault)
    case Ok(offset) =>
      var limit := Clamp(requestedLimit);
      var paged := impact.(callers := Slice(impact.callers, offset, limit));
      var consumed := Min(SaturatingAdd(offset, |paged.callers|), total);
      Ok((paged, Page(paged.callers, limit, offset, cursor,
                      if consumed < total then LastCursor(paged.callers, cursorOf) else None,
                      total, consumed < total, total - consumed)))
  }

  /** The three item paginators are one function of the list, up to the cursor prefix. */
  lemma PaginatorsAgree<S, C>(items: seq<C>, summary: S, cursorOf: C -> string, requestedOffset: Option<usize>,
                              cursor: Option<string>, requestedLimit: usize)
    requires |items| <= USIZE_MAX
    ensures PaginateRelated(items, cursorOf, requestedOffset, cursor, requestedLimit)
         == PaginateItems("related:", items, cursorOf, requestedOffset, cursor, requestedLimit)
    ensures PaginateImpact(Impact(summary, items), cursorOf, requestedOffset, cursor, requestedLimit)
         == match PaginateItems("impact:", items, cursorOf, requestedOffset, cursor, requestedLimit)
            case Ok(page) => Ok((Impact(summary, page.items), page))
            case Err(fault) => Err(fault)
  {
    RelatedAgrees(items, cursorOf, requestedOffset, cursor, requestedLimit);
    ImpactAgrees(items, summary, cursorOf, requestedOffset, cursor, requestedLimit);
  }

  lemma RelatedAgrees<T>(items: seq<T>, cursorOf: T -> string, requestedOffset: Option<usize>,
                         cursor: Option<string>, requestedLimit: usize)
    requires |items| <= USIZE_MAX
    ensures PaginateRelated(items, cursorOf, requestedOffset, cursor, requestedLimit)
         == PaginateItems("related:", items, cursorOf, requestedOffset, cursor, requestedLimit)
  {
  }

  lemma ImpactAgrees<S, C>(items: seq<C>, summary: S, cursorOf: C -> string, requestedOffset: Option<usize>,
                           cursor: Option<string>, requestedLimit: usize)
    requires |items| <= USIZE_MAX
    ensures PaginateImpact(Impact(summary, items), cursorOf, requestedOffset, cursor, requestedLimit)
         == match PaginateItems("impact:", items, cursorOf, requestedOffset, cursor, requestedLimit)
            case Ok(page) => Ok((Impact(summary, page.items), page))
            case Err(fault) => Err(fault)
  {
  }

  // ---------------------------------------------------------------- one page

  /** What every page of `items` says, wherever it starts. */
  ghost predicate Accounts<T>(items: seq<T>, page: Page<T>) {
    && 1 <= page.limit <= 500 && page.total == |items|
    && page.items == Slice(items, page.offset, page.limit)
    && Min(page.offset, page.total) + |page.items| + page.omitted == page.total
    && (page.hasMore <==> page.omitted > 0)
    && (page.nextCursor.Some? <==> page.hasMore)
    && (page.hasMore ==> |page.items| == page.limit)
  }

  lemma SliceLength<T>(items: seq<T>, offset: nat, limit: nat)
    requires |items| <= USIZE_MAX && 1 <= limit
    ensures var page := Slice(items, offset, limit);
            && Min(offset, |items|) + |page| == Consumed(items, offset, page)
            && (Consumed(items, offset, page) < |items| ==> |page| == limit)
  {
  }

  /** Nothing is unaccounted for, and a next cursor is present exactly when there is more. */
  lemma CollectionAccounts<T>(items: seq<T>, offset: usize, requestedLimit: usize)
    requires |items| <= USIZE_MAX
    ensures Accounts(items, PaginateCollection(items, offset, requestedLimit))
  {
    SliceLength(items, offset, Clamp(requestedLimit));
  }

  lemma ItemsAccount<T>(prefix: string, items: seq<T>, cursorOf: T -> string, requestedOffset: Option<usize>,
                        cursor: Option<string>, requestedLimit: usize)
    requires |items| <= USIZE_MAX
    ensures var r := PaginateItems(prefix, items, cursorOf, requestedOffset, cursor, requestedLimit);
            r.Ok? ==> Accounts(items, r.value)
  {
    var start := StartOf(prefix, items, cursorOf, requestedOffset, cursor);
    if start.Ok? {
      SliceLength(items, start.value, Clamp(requestedLimit));
    }
  }

  // ---------------------------------------------------------------- the page that was asked for

  /** The page of at most `limit` items that starts at `offset`. */
  ghost predicate IsPageAt<T>(items: seq<T>, page: Page<T>, offset: nat, limit: nat) {
    && page.offset == offset && page.limit == limit
    && |page.items| == Min(limit, |items| - Min(offset, |items|))
    && forall i: nat :: i < |page.items| ==> page.items[i] == items[offset + i]
  }

  lemma SliceIsPage<T>(items: seq<T>, page: Page<T>, offset: nat, limit: nat)
    requires page.items == Slice(items, offset, limit) && page.offset == offset && page.limit == limit
    ensures IsPageAt(items, page, offset, limit)
  {
  }

  /** A collection page holds the items from the requested offset on. */
  lemma CollectionPage<T>(items: seq<T>, offset: usize, requestedLimit: usize)
    ensures IsPageAt(items, PaginateCollection(items, offset, requestedLimit), offset, Clamp(requestedLimit))
    ensures PaginateCollection(items, offset, requestedLimit).cursor == None
  {
    SliceIsPage(items, PaginateCollection(items, offset, requestedLimit), offset, Clamp(requestedLimit));
  }

  lemma PageFromStart<T>(prefix: string, items: seq<T>, cursorOf: T -> string, requestedOffset: Option<usize>,
                         cursor: Option<string>, requestedLimit: usize, offset: usize)
    requires |items| <= USIZE_MAX && StartOf(prefix, items, cursorOf, requestedOffset, cursor) == Ok(offset)
    ensures var r := PaginateItems(prefix, items, cursorOf, requestedOffset, cursor, requestedLimit);
            r.Ok? && IsPageAt(items, r.value, offset, Clamp(requestedLimit)) && r.value.cursor == cursor
  {
    var page := PaginateItems(prefix, items, cursorOf, requestedOffset, cursor, requestedLimit).value;
    SliceIsPage(items, page, offset, Clamp(requestedLimit));
  }

  /** Without a cursor the page starts at the requested offset, or at the beginning. */
  lemma RequestedPage<T>(prefix: string, items: seq<T>, cursorOf: T -> string, requestedOffset: Option<usize>,
                         requestedLimit: usize)
    requires |items| <= USIZE_MAX
    ensures var r := PaginateItems(prefix, items, cursorOf, requestedOffset, None, requestedLimit);
            var offset := if requestedOffset.Some? then requestedOffset.value else 0;
            r.Ok? && IsPageAt(items, r.value, offset, Clamp(requestedLimit)) && r.value.cursor == None
  {
    var offset := if requestedOffset.Some? then requestedOffset.value else 0;
    PageFromStart(prefix, items, cursorOf, requestedOffset, None, requestedLimit, offset);
  }

  /** A numeral of n: digits, leading zeros allowed. */
  predicate IsNumeral(d: string, n: nat) {
    d != [] && AllDigits(d) && Value(d) == n
  }

  /** Exactly the numerals in range parse, with or without a plus sign. */
  lemma ParseExact(s: string, n: usize)
    ensures ParseUsize(s) == Some(n) <==> IsNumeral(s, n) || (s != [] && s[0] == '+' && IsNumeral(s[1..], n))
  {
  }

  /** A numeral, bare or after `offset:`, is the cursor of an offset and overrides the requested one; whatever
      else is not an item cursor is refused. */
  lemma NumeralPage<T>(prefix: string, items: seq<T>, cursorOf: T -> string, requestedOffset: Option<usize>,
                       value: string, requestedLimit: usize)
    requires |items| <= USIZE_MAX && !(prefix <= value)
    ensures var r := PaginateItems(prefix, items, cursorOf, requestedOffset, Some(value), requestedLimit);
            var text := if "offset:" <= value then value[7..] else value;
            match ParseUsize(text)
            case Some(offset) => r.Ok? && IsPageAt(items, r.value, offset, Clamp(requestedLimit))
                                 && r.value.cursor == Some(value)
            case None => r == Err(InvalidCursor)
  {
    var text := if "offset:" <= value then value[7..] else value;
    assert text == StripPrefix("offset:", value);
    match ParseUsize(text)
    case Some(offset) =>
      PageFromStart(prefix, items, cursorOf, requestedOffset, Some(value), requestedLimit, offset);
    case None =>
  }

  /** An item cursor starts the page right after the first item that carries it, whatever offset is requested. */
  lemma ItemCursorPage<T>(prefix: string, items: seq<T>, cursorOf: T -> string, requestedOffset: Option<usize>,
                          at: nat, requestedLimit: usize)
    requires |items| <= USIZE_MAX && at < |items| && prefix <= cursorOf(items[at])
    requires forall i :: 0 <= i < at ==> cursorOf(items[i]) != cursorOf(items[at])
    ensures var c := Some(cursorOf(items[at]));
            var r := PaginateItems(prefix, items, cursorOf, requestedOffset, c, requestedLimit);
            r.Ok? && IsPageAt(items, r.value, at + 1, Clamp(requestedLimit)) && r.value.cursor == c
  {
    PageFromStart(prefix, items, cursorOf, requestedOffset, Some(cursorOf(items[at])), requestedLimit, at + 1);
  }

  // ---------------------------------------------------------------- following cursors

  function Concat<T>(pages: seq<Page<T>>): seq<T> {
    if pages == [] then [] else Concat(pages[..|pages| - 1]) + pages[|pages| - 1].items
  }

  /** Offset of page k, for pages of `limit` items. */
  function Start(k: nat, limit: nat): nat {
    if k == 0 then 0 else Start(k - 1, limit) + limit
  }

  lemma {:induction false} StartIsProduct(k: nat, limit: nat)
    ensures Start(k, limit) == k * limit
  {
    if k > 0 { StartIsProduct(k - 1, limit); }
  }

  /** Pages laid end to end from the start, stopping at the first without more. */
  ghost predicate Tiles<T>(items: seq<T>, limit: nat, pages: seq<Page<T>>) {
    && |pages| > 0 && 1 <= limit
    && (forall i: nat :: i < |pages| ==> IsTile(items, limit, pages, i))
  }

  ghost predicate IsTile<T>(items: seq<T>, limit: nat, pages: seq<Page<T>>, i: nat)
    requires i < |pages|
  {
    && Accounts(items, pages[i]) && pages[i].limit == limit && pages[i].offset == Start(i, limit)
    && (pages[i].hasMore <==> i < |pages| - 1)
  }

  lemma {:induction false} TilesPrefix<T>(items: seq<T>, limit: nat, pages: seq<Page<T>>, k: nat)
    requires Tiles(items, limit, pages) && k <= |pages|
    ensures Concat(pages[..k]) == items[..Min(Start(k, limit), |items|)]
  {
    if k > 0 {
      TilesPrefix(items, limit, pages, k - 1);
      assert pages[..k][..k - 1] == pages[..k - 1];
      assert IsTile(items, limit, pages, k - 1);
      assert Concat(pages[..k]) == Concat(pages[..k - 1]) + pages[k - 1].items;
    }
  }

  /** n pages are ceil(total / limit) pages, or one for an empty list. */
  predicate NeededPages(total: nat, limit: nat, n: nat) {
    if total == 0 then n == 1 else (n - 1) * limit < total <= n * limit
  }

  /** Following to the end yields the whole list in order, in ceil(total / limit) pages (one if empty). */
  lemma TilesCover<T>(items: seq<T>, limit: nat, pages: seq<Page<T>>)
    requires Tiles(items, limit, pages)
    ensures Concat(pages) == items
    ensures NeededPages(|items|, limit, |pages|)
  {
    var n := |pages|;
    StartIsProduct(n, limit);
    StartIsProduct(n - 1, limit);
    TilesBounds(items, limit, pages);
    TilesPrefix(items, limit, pages, n);
    assert pages[..n] == pages;
  }

  lemma TilesBounds<T>(items: seq<T>, limit: nat, pages: seq<Page<T>>)
    requires Tiles(items, limit, pages)
    ensures |items| <= Start(|pages|, limit)
    ensures |pages| > 1 || items != [] ==> Start(|pages| - 1, limit) < |items|
  {
    var n := |pages|;
    assert IsTile(items, limit, pages, n - 1);
    if n > 1 {
      assert IsTile(items, limit, pages, n - 2);
    }
  }

  /** No earlier item shares the cursor of the last of the first n items, so that cursor leads back to it. */
  ghost predicate Resumes<T>(items: seq<T>, cursorOf: T -> string, n: nat) {
    0 < n <= |items| ==> forall i :: 0 <= i < n - 1 ==> cursorOf(items[i]) != cursorOf(items[n - 1])
  }

  /** Every full page that is not the last ends on an item whose cursor leads back to it. */
  ghost predicate CursorsResume<T>(items: seq<T>, cursorOf: T -> string, limit: nat) {
    forall k: nat {:trigger Resumes(items, cursorOf, Start(k, limit))} ::
      Start(k, limit) < |items| ==> Resumes(items, cursorOf, Start(k, limit))
  }

  lemma UniqueCursorsResume<T>(items: seq<T>, cursorOf: T -> string, limit: nat)
    requires forall i, j :: 0 <= i < j < |items| ==> cursorOf(items[i]) != cursorOf(items[j])
    ensures CursorsResume(items, cursorOf, limit)
  {
  }

  /** A server that answers a cursor with a page. */
  type Server<!T> = Option<string> -> Result<Page<T>, Fault>

  function Serving<T>(prefix: string, items: seq<T>, cursorOf: T -> string, requestedLimit: usize): Server<T>
    requires |items| <= USIZE_MAX
  {
    cursor => PaginateItems(prefix, items, cursorOf, None, cursor, requestedLimit)
  }

  /** Page i answers the request that carries the cursor of page i - 1. */
  ghost predicate Answers<T>(server: Server<T>, pages: seq<Page<T>>, i: nat)
    requires i < |pages|
  {
    server(CursorFor(pages, i)) == Ok(pages[i])
  }

  /** Pages obtained by passing each page's next cursor back, until there is no more. */
  ghost predicate Followed<T>(server: Server<T>, pages: seq<Page<T>>) {
    && |pages| > 0
    && (forall i: nat :: i < |pages| ==> Answers(server, pages, i))
    && (forall i: nat :: i < |pages| ==> (pages[i].hasMore <==> i < |pages| - 1))
  }

  function CursorFor<T>(pages: seq<Page<T>>, i: nat): Option<string>
    requires i <= |pages|
  {
    if i == 0 then None else pages[i - 1].nextCursor
  }

  /** Looking up the cursor of item b finds the first item that shares it. */
  lemma PositionOfItem<T>(items: seq<T>, cursorOf: T -> string, b: nat)
    requires b < |items|
    ensures var at := Position(items, cursorOf, cursorOf(items[b]));
            at.Some? && at.value <= b && (at.value == b <==> Resumes(items, cursorOf, b + 1))
  {
  }

  /** A full page's next cursor starts the following request where the page ended. */
  lemma NextStart<T>(prefix: string, items: seq<T>, cursorOf: T -> string, page: Page<T>, limit: nat)
    requires |items| <= USIZE_MAX && (forall i :: 0 <= i < |items| ==> prefix <= cursorOf(items[i]))
    requires 1 <= limit && page.offset + limit < |items| && page.items == Slice(items, page.offset, limit)
    requires page.nextCursor == LastCursor(page.items, cursorOf)
    ensures StartOf(prefix, items, cursorOf, None, page.nextCursor) == Ok(page.offset + limit)
            <==> Resumes(items, cursorOf, page.offset + limit)
    ensures StartOf(prefix, items, cursorOf, None, page.nextCursor).Ok?
            && StartOf(prefix, items, cursorOf, None, page.nextCursor).value <= page.offset + limit
  {
    var b := page.offset + limit - 1;
    assert page.items[limit - 1] == items[b];
    PositionOfItem(items, cursorOf, b);
    assert prefix <= cursorOf(items[b]);
  }

  lemma AnswerShape<T>(prefix: string, items: seq<T>, cursorOf: T -> string,
                       requestedLimit: usize, pages: seq<Page<T>>, i: nat)
    requires |items| <= USIZE_MAX && i < |pages|
    requires Answers(Serving(prefix, items, cursorOf, requestedLimit), pages, i)
    ensures Accounts(items, pages[i]) && pages[i].limit == Clamp(requestedLimit)
    ensures pages[i].hasMore ==> pages[i].nextCursor == LastCursor(pages[i].items, cursorOf)
    ensures StartOf(prefix, items, cursorOf, None, CursorFor(pages, i)) == Ok(pages[i].offset)
  {
    ItemsAccount(prefix, items, cursorOf, None, CursorFor(pages, i), requestedLimit);
  }

  /** After tile i the cursor leads to the start of tile i + 1. */
  lemma NextTile<T>(prefix: string, items: seq<T>, cursorOf: T -> string,
                    requestedLimit: usize, pages: seq<Page<T>>, i: nat)
    requires |items| <= USIZE_MAX && (forall i :: 0 <= i < |items| ==> prefix <= cursorOf(items[i]))
    requires CursorsResume(items, cursorOf, Clamp(requestedLimit))
    requires i < |pages| && Answers(Serving(prefix, items, cursorOf, requestedLimit), pages, i) && pages[i].hasMore
    requires pages[i].offset == Start(i, Clamp(requestedLimit))
    ensures StartOf(prefix, items, cursorOf, None, CursorFor(pages, i + 1)) == Ok(Start(i + 1, Clamp(requestedLimit)))
  {
    var limit := Clamp(requestedLimit);
    AnswerShape(prefix, items, cursorOf, requestedLimit, pages, i);
    assert Start(i + 1, limit) == pages[i].offset + limit;
    assert Resumes(items, cursorOf, Start(i + 1, limit));
    NextStart(prefix, items, cursorOf, pages[i], limit);
  }

  lemma {:induction false} FirstOffset<T>(prefix: string, items: seq<T>, cursorOf: T -> string,
                                          requestedLimit: usize, pages: seq<Page<T>>)
    requires |items| <= USIZE_MAX && pages != []
    requires Answers(Serving(prefix, items, cursorOf, requestedLimit), pages, 0)
    ensures pages[0].offset == 0
  {
    AnswerShape(prefix, items, cursorOf, requestedLimit, pages, 0);
  }

  // ---------------------------------------------------------------- any chain, whatever the cursors

  /** Page i + 1 starts where page i ended, or earlier. */
  ghost predicate StepsBack<T>(limit: nat, pages: seq<Page<T>>, i: nat)
    requires i + 1 < |pages|
  {
    pages[i + 1].offset <= pages[i].offset + limit && |pages[i].items| == limit
  }

  /** A chain of full pages from the start, none of which skips ahead. */
  ghost predicate NoGaps<T>(limit: nat, pages: seq<Page<T>>) {
    && |pages| > 0 && pages[0].offset == 0
    && forall i: nat :: i + 1 < |pages| ==> StepsBack(limit, pages, i)
  }

  /** Where the page after a page with more starts. */
  lemma NextOffset<T>(prefix: string, items: seq<T>, cursorOf: T -> string, page: Page<T>, next: nat)
    requires |items| <= USIZE_MAX && (forall i :: 0 <= i < |items| ==> prefix <= cursorOf(items[i]))
    requires Accounts(items, page) && page.hasMore && page.nextCursor == LastCursor(page.items, cursorOf)
    requires StartOf(prefix, items, cursorOf, None, page.nextCursor) == Ok(next)
    ensures next <= page.offset + page.limit < |items| && |page.items| == page.limit
    ensures next == page.offset + page.limit <==> Resumes(items, cursorOf, page.offset + page.limit)
  {
    NextStart(prefix, items, cursorOf, page, page.limit);
  }

  /** Each further page starts where the last one ended exactly when that boundary resumes. */
  lemma {:induction false} FollowedStep<T>(prefix: string, items: seq<T>, cursorOf: T -> string,
                                           requestedLimit: usize, pages: seq<Page<T>>, i: nat)
    requires |items| <= USIZE_MAX && (forall i :: 0 <= i < |items| ==> prefix <= cursorOf(items[i]))
    requires Followed(Serving(prefix, items, cursorOf, requestedLimit), pages) && i + 1 < |pages|
    ensures StepsBack(Clamp(requestedLimit), pages, i) && pages[i].offset + Clamp(requestedLimit) < |items|
    ensures pages[i + 1].offset == pages[i].offset + Clamp(requestedLimit)
            <==> Resumes(items, cursorOf, pages[i].offset + Clamp(requestedLimit))
  {
    AnswerShape(prefix, items, cursorOf, requestedLimit, pages, i);
    AnswerShape(prefix, items, cursorOf, requestedLimit, pages, i + 1);
    NextOffset(prefix, items, cursorOf, pages[i], pages[i + 1].offset);
  }

  lemma {:induction false} FollowedOffset<T>(prefix: string, items: seq<T>, cursorOf: T -> string,
                                             requestedLimit: usize, pages: seq<Page<T>>, i: nat)
    requires |items| <= USIZE_MAX && (forall i :: 0 <= i < |items| ==> prefix <= cursorOf(items[i]))
    requires CursorsResume(items, cursorOf, Clamp(requestedLimit))
    requires Followed(Serving(prefix, items, cursorOf, requestedLimit), pages) && i < |pages|
    ensures pages[i].offset == Start(i, Clamp(requestedLimit))
  {
    if i == 0 {
      FirstOffset(prefix, items, cursorOf, requestedLimit, pages);
    } else {
      FollowedOffset(prefix, items, cursorOf, requestedLimit, pages, i - 1);
      FollowedStep(prefix, items, cursorOf, requestedLimit, pages, i - 1);
      assert Resumes(items, cursorOf, Start(i, Clamp(requestedLimit)));
    }
  }

  lemma {:induction false} FollowedTile<T>(prefix: string, items: seq<T>, cursorOf: T -> string,
                                           requestedLimit: usize, pages: seq<Page<T>>, i: nat)
    requires |items| <= USIZE_MAX && (forall i :: 0 <= i < |items| ==> prefix <= cursorOf(items[i]))
    requires CursorsResume(items, cursorOf, Clamp(requestedLimit))
    requires Followed(Serving(prefix, items, cursorOf, requestedLimit), pages) && i < |pages|
    ensures IsTile(items, Clamp(requestedLimit), pages, i)
  {
    FollowedOffset(prefix, items, cursorOf, requestedLimit, pages, i);
    AnswerShape(prefix, items, cursorOf, requestedLimit, pages, i);
  }

  lemma {:induction false} ResumingTiles<T>(prefix: string, items: seq<T>, cursorOf: T -> string,
                                            requestedLimit: usize, pages: seq<Page<T>>)
    requires |items| <= USIZE_MAX && (forall i :: 0 <= i < |items| ==> prefix <= cursorOf(items[i]))
    requires CursorsResume(items, cursorOf, Clamp(requestedLimit))
    requires Followed(Serving(prefix, items, cursorOf, requestedLimit), pages)
    ensures Tiles(items, Clamp(requestedLimit), pages)
  {
    forall i: nat | i < |pages| ensures IsTile(items, Clamp(requestedLimit), pages, i) {
      FollowedTile(prefix, items, cursorOf, requestedLimit, pages, i);
    }
  }

  lemma {:induction false} FollowedNoGaps<T>(prefix: string, items: seq<T>, cursorOf: T -> string,
                                             requestedLimit: usize, pages: seq<Page<T>>)
    requires |items| <= USIZE_MAX && (forall i :: 0 <= i < |items| ==> prefix <= cursorOf(items[i]))
    requires Followed(Serving(prefix, items, cursorOf, requestedLimit), pages)
    ensures NoGaps(Clamp(requestedLimit), pages)
  {
    FirstOffset(prefix, items, cursorOf, requestedLimit, pages);
    forall i: nat | i + 1 < |pages| ensures StepsBack(Clamp(requestedLimit), pages, i) {
      FollowedStep(prefix, items, cursorOf, requestedLimit, pages, i);
    }
  }

  /** A chain that has fallen behind never catches up. */
  lemma {:induction false} LagGrows<T>(limit: nat, pages: seq<Page<T>>, i: nat, j: nat)
    requires NoGaps(limit, pages) && i <= j < |pages|
    ensures Start(i, limit) - pages[i].offset <= Start(j, limit) - pages[j].offset
    decreases j - i
  {
    if i < j {
      LagGrows(limit, pages, i, j - 1);
      assert StepsBack(limit, pages, j - 1);
    }
  }

  lemma {:induction false} FullPagesLength<T>(limit: nat, pages: seq<Page<T>>, k: nat)
    requires NoGaps(limit, pages) && k < |pages|
    ensures |Concat(pages[..k])| == Start(k, limit)
  {
    if k > 0 {
      FullPagesLength(limit, pages, k - 1);
      assert pages[..k][..k - 1] == pages[..k - 1];
      assert StepsBack(limit, pages, k - 1);
    }
  }

  /** What a whole chain returns, in length: the list, plus what its last page lags behind. */
  lemma {:induction false} ChainLength<T>(prefix: string, items: seq<T>, cursorOf: T -> string,
                                          requestedLimit: usize, pages: seq<Page<T>>)
    requires |items| <= USIZE_MAX && (forall i :: 0 <= i < |items| ==> prefix <= cursorOf(items[i]))
    requires Followed(Serving(prefix, items, cursorOf, requestedLimit), pages)
    ensures var last := |pages| - 1;
            |Concat(pages)| == |items| + Start(last, Clamp(requestedLimit)) - pages[last].offset
  {
    var last, limit := |pages| - 1, Clamp(requestedLimit);
    FollowedNoGaps(prefix, items, cursorOf, requestedLimit, pages);
    FullPagesLength(limit, pages, last);
    AnswerShape(prefix, items, cursorOf, requestedLimit, pages, last);
    if last > 0 {
      FollowedStep(prefix, items, cursorOf, requestedLimit, pages, last - 1);
    }
  }

  /** A chain that does not lag at its end never did. */
  lemma NoLag<T>(limit: nat, pages: seq<Page<T>>, k: nat)
    requires NoGaps(limit, pages) && pages[|pages| - 1].offset == Start(|pages| - 1, limit) && k < |pages|
    ensures pages[k].offset == Start(k, limit)
  {
    LagGrows(limit, pages, 0, k);
    LagGrows(limit, pages, k, |pages| - 1);
  }

  /** Such a chain has used every boundary inside the list, and each of them resumes. */
  lemma {:induction false} NoLagResumes<T>(prefix: string, items: seq<T>, cursorOf: T -> string,
                                           requestedLimit: usize, pages: seq<Page<T>>, k: nat)
    requires |items| <= USIZE_MAX && (forall i :: 0 <= i < |items| ==> prefix <= cursorOf(items[i]))
    requires Followed(Serving(prefix, items, cursorOf, requestedLimit), pages)
    requires pages[|pages| - 1].offset == Start(|pages| - 1, Clamp(requestedLimit))
    requires Start(k, Clamp(requestedLimit)) < |items|
    ensures Resumes(items, cursorOf, Start(k, Clamp(requestedLimit)))
  {
    var limit := Clamp(requestedLimit);
    LastStart(prefix, items, cursorOf, requestedLimit, pages);
    if k >= |pages| {
      StartGrows(|pages|, k, limit);
    } else if k > 0 {
      FollowedNoGaps(prefix, items, cursorOf, requestedLimit, pages);
      NoLag(limit, pages, k - 1);
      NoLag(limit, pages, k);
      FollowedStep(prefix, items, cursorOf, requestedLimit, pages, k - 1);
      assert Start(k, limit) == pages[k - 1].offset + limit;
    }
  }

  lemma {:induction false} LastStart<T>(prefix: string, items: seq<T>, cursorOf: T -> string,
                                        requestedLimit: usize, pages: seq<Page<T>>)
    requires |items| <= USIZE_MAX && Followed(Serving(prefix, items, cursorOf, requestedLimit), pages)
    requires pages[|pages| - 1].offset == Start(|pages| - 1, Clamp(requestedLimit))
    ensures |items| <= Start(|pages|, Clamp(requestedLimit))
  {
    FollowedPage(prefix, items, cursorOf, requestedLimit, pages, |pages| - 1);
    LastPageEnds(items, pages[|pages| - 1]);
  }

  lemma {:induction false} FollowedPage<T>(prefix: string, items: seq<T>, cursorOf: T -> string,
                                           requestedLimit: usize, pages: seq<Page<T>>, i: nat)
    requires |items| <= USIZE_MAX && Followed(Serving(prefix, items, cursorOf, requestedLimit), pages)
    requires i < |pages|
    ensures Accounts(items, pages[i]) && pages[i].limit == Clamp(requestedLimit)
    ensures pages[i].hasMore <==> i < |pages| - 1
  {
    AnswerShape(prefix, items, cursorOf, requestedLimit, pages, i);
  }

  lemma LastPageEnds<T>(items: seq<T>, page: Page<T>)
    requires Accounts(items, page) && !page.hasMore
    ensures |items| <= page.offset + page.limit
  {
  }

  lemma {:induction false} StartGrows(i: nat, j: nat, limit: nat)
    requires i <= j
    ensures Start(i, limit) <= Start(j, limit)
  {
    if i < j { StartGrows(i, j - 1, limit); }
  }

  /** Main theorem, with its exact condition: following item cursors from the first page to the end yields
      every item once, in order, if and only if the cursor at every page boundary inside the list leads
      back to its own item; the pages are then as few as the list needs. */
  lemma {:induction false} FollowingCoversList<T>(prefix: string, items: seq<T>, cursorOf: T -> string,
                                                  requestedLimit: usize, pages: seq<Page<T>>)
    requires |items| <= USIZE_MAX && (forall i :: 0 <= i < |items| ==> prefix <= cursorOf(items[i]))
    requires Followed(Serving(prefix, items, cursorOf, requestedLimit), pages)
    ensures Concat(pages) == items <==> CursorsResume(items, cursorOf, Clamp(requestedLimit))
    ensures Concat(pages) == items ==> NeededPages(|items|, Clamp(requestedLimit), |pages|)
  {
    var limit := Clamp(requestedLimit);
    if Concat(pages) == items {
      ChainLength(prefix, items, cursorOf, requestedLimit, pages);
      forall k: nat | Start(k, limit) < |items| ensures Resumes(items, cursorOf, Start(k, limit)) {
        NoLagResumes(prefix, items, cursorOf, requestedLimit, pages, k);
      }
    }
    if CursorsResume(items, cursorOf, limit) {
      ResumingTiles(prefix, items, cursorOf, requestedLimit, pages);
      TilesCover(items, limit, pages);
    }
  }

  /** Page i returned item n. */
  ghost predicate Shows<T>(items: seq<T>, pages: seq<Page<T>>, i: nat, n: nat) {
    && i < |pages| && n < |items| && pages[i].offset <= n < pages[i].offset + |pages[i].items|
    && pages[i].items[n - pages[i].offset] == items[n]
  }

  lemma SliceItem<T>(items: seq<T>, page: Page<T>, n: nat)
    requires Accounts(items, page) && page.offset <= n < page.offset + |page.items|
    ensures n < |items| && page.items[n - page.offset] == items[n]
  {
    assert page.items == items[page.offset..page.offset + |page.items|];
  }

  lemma {:induction false} PrefixShown<T>(items: seq<T>, limit: nat, pages: seq<Page<T>>, i: nat, n: nat)
    returns (at: nat)
    requires NoGaps(limit, pages) && (forall k: nat :: k < |pages| ==> Accounts(items, pages[k]))
    requires i < |pages| && n < |items| && n < pages[i].offset + |pages[i].items|
    ensures Shows(items, pages, at, n)
  {
    if pages[i].offset <= n {
      SliceItem(items, pages[i], n);
      at := i;
    } else {
      assert StepsBack(limit, pages, i - 1);
      at := PrefixShown(items, limit, pages, i - 1, n);
    }
  }

  lemma {:induction false} FollowedAccounts<T>(prefix: string, items: seq<T>, cursorOf: T -> string,
                                               requestedLimit: usize, pages: seq<Page<T>>)
    requires |items| <= USIZE_MAX && Followed(Serving(prefix, items, cursorOf, requestedLimit), pages)
    ensures forall k: nat :: k < |pages| ==> Accounts(items, pages[k])
  {
    forall k: nat | k < |pages| ensures Accounts(items, pages[k]) {
      FollowedPage(prefix, items, cursorOf, requestedLimit, pages, k);
    }
  }

  /** Whatever the cursors, a chain that ends has shown every item: shared cursors can only repeat. */
  lemma {:induction false} FollowingSkipsNothing<T>(prefix: string, items: seq<T>, cursorOf: T -> string,
                                                    requestedLimit: usize, pages: seq<Page<T>>, n: nat)
    requires |items| <= USIZE_MAX && (forall i :: 0 <= i < |items| ==> prefix <= cursorOf(items[i]))
    requires Followed(Serving(prefix, items, cursorOf, requestedLimit), pages) && n < |items|
    ensures exists i :: Shows(items, pages, i, n)
    ensures |Concat(pages)| >= |items|
  {
    var last := |pages| - 1;
    FollowedNoGaps(prefix, items, cursorOf, requestedLimit, pages);
    LagGrows(Clamp(requestedLimit), pages, 0, last);
    ChainLength(prefix, items, cursorOf, requestedLimit, pages);
    FollowedAccounts(prefix, items, cursorOf, requestedLimit, pages);
    assert Accounts(items, pages[last]);
    var at := PrefixShown(items, Clamp(requestedLimit), pages, last, n);
  }

  /** When an earlier item shares the cursor of a page's last item, the next page starts right after the
      first item that does, before the page's end. */
  lemma SharedCursorStepsBack<T>(prefix: string, items: seq<T>, cursorOf: T -> string,
                                 offset: usize, requestedLimit: usize)
    requires |items| <= USIZE_MAX && (forall i :: 0 <= i < |items| ==> prefix <= cursorOf(items[i]))
    requires offset + Clamp(requestedLimit) < |items|
    requires !Resumes(items, cursorOf, offset + Clamp(requestedLimit))
    ensures var page := PaginateItems(prefix, items, cursorOf, Some(offset), None, requestedLimit);
            && page.Ok? && page.value.nextCursor.Some?
            && var next := PaginateItems(prefix, items, cursorOf, None, page.value.nextCursor, requestedLimit);
               && next.Ok? && 0 < next.value.offset < offset + Clamp(requestedLimit)
               && page.value.nextCursor == Some(cursorOf(items[next.value.offset - 1]))
               && forall i :: 0 <= i < next.value.offset - 1 ==> cursorOf(items[i]) != page.value.nextCursor.value
  {
    var page := PaginateItems(prefix, items, cursorOf, Some(offset), None, requestedLimit).value;
    NextStart(prefix, items, cursorOf, page, Clamp(requestedLimit));
    assert page.items[|page.items| - 1] == items[offset + Clamp(requestedLimit) - 1];
  }

  /** The first pages of a chain, all with more to come. */
  ghost predicate ChainSoFar<T>(server: Server<T>, limit: nat, pages: seq<Page<T>>) {
    forall i: nat :: i < |pages| ==> FullTile(server, limit, pages, i)
  }

  ghost predicate FullTile<T>(server: Server<T>, limit: nat, pages: seq<Page<T>>, i: nat)
    requires i < |pages|
  {
    Answers(server, pages, i) && pages[i].hasMore && pages[i].offset == Start(i, limit)
  }

  lemma FetchNext<T>(prefix: string, items: seq<T>, cursorOf: T -> string,
                     requestedLimit: usize, sofar: seq<Page<T>>) returns (next: Page<T>)
    requires |items| <= USIZE_MAX && (forall i :: 0 <= i < |items| ==> prefix <= cursorOf(items[i]))
    requires CursorsResume(items, cursorOf, Clamp(requestedLimit))
    requires ChainSoFar(Serving(prefix, items, cursorOf, requestedLimit), Clamp(requestedLimit), sofar)
    ensures Serving(prefix, items, cursorOf, requestedLimit)(CursorFor(sofar, |sofar|)) == Ok(next)
    ensures next.offset == Start(|sofar|, Clamp(requestedLimit))
    ensures next.hasMore ==> Start(|sofar| + 1, Clamp(requestedLimit)) < |items|
  {
    var n := |sofar|;
    if n > 0 {
      assert FullTile(Serving(prefix, items, cursorOf, requestedLimit), Clamp(requestedLimit), sofar, n - 1);
      NextTile(prefix, items, cursorOf, requestedLimit, sofar, n - 1);
    }
    next := PaginateItems(prefix, items, cursorOf, None, CursorFor(sofar, n), requestedLimit).value;
  }

  /** Fetching one more page leaves the earlier requests as they were. */
  lemma EarlierAnswers<T>(server: Server<T>, sofar: seq<Page<T>>, next: Page<T>, i: nat)
    requires i < |sofar| && Answers(server, sofar, i)
    ensures Answers(server, sofar + [next], i)
  {
    assert (sofar + [next])[i] == sofar[i];
    assert i > 0 ==> (sofar + [next])[i - 1] == sofar[i - 1];
  }

  lemma LatestAnswer<T>(server: Server<T>, sofar: seq<Page<T>>, next: Page<T>)
    requires server(CursorFor(sofar, |sofar|)) == Ok(next)
    ensures Answers(server, sofar + [next], |sofar|)
  {
    assert sofar != [] ==> (sofar + [next])[|sofar| - 1] == sofar[|sofar| - 1];
  }

  lemma ExtendChain<T>(server: Server<T>, limit: nat, sofar: seq<Page<T>>, next: Page<T>)
    requires ChainSoFar(server, limit, sofar) && server(CursorFor(sofar, |sofar|)) == Ok(next)
    requires next.hasMore && next.offset == Start(|sofar|, limit)
    ensures ChainSoFar(server, limit, sofar + [next])
  {
    var pages := sofar + [next];
    forall i: nat | i < |pages| ensures FullTile(server, limit, pages, i) {
      if i < |sofar| {
        assert FullTile(server, limit, sofar, i);
        EarlierAnswers(server, sofar, next, i);
      } else {
        LatestAnswer(server, sofar, next);
      }
    }
  }

  lemma EndChain<T>(server: Server<T>, limit: nat, sofar: seq<Page<T>>, next: Page<T>)
    requires ChainSoFar(server, limit, sofar) && server(CursorFor(sofar, |sofar|)) == Ok(next)
    requires !next.hasMore
    ensures Followed(server, sofar + [next])
  {
    var pages := sofar + [next];
    forall i: nat | i < |pages|
      ensures Answers(server, pages, i) && (pages[i].hasMore <==> i < |pages| - 1)
    {
      if i < |sofar| {
        assert FullTile(server, limit, sofar, i);
        EarlierAnswers(server, sofar, next, i);
      } else {
        LatestAnswer(server, sofar, next);
      }
    }
  }

  /** Following ends when the boundaries resume: from the first pages of a chain the rest can be fetched. */
  lemma {:induction false} FollowingEnds<T>(prefix: string, items: seq<T>, cursorOf: T -> string,
                                            requestedLimit: usize, sofar: seq<Page<T>>) returns (pages: seq<Page<T>>)
    requires |items| <= USIZE_MAX && (forall i :: 0 <= i < |items| ==> prefix <= cursorOf(items[i]))
    requires CursorsResume(items, cursorOf, Clamp(requestedLimit))
    requires ChainSoFar(Serving(prefix, items, cursorOf, requestedLimit), Clamp(requestedLimit), sofar)
    ensures sofar <= pages && Followed(Serving(prefix, items, cursorOf, requestedLimit), pages)
    decreases |items| - Start(|sofar|, Clamp(requestedLimit))
  {
    var server, limit := Serving(prefix, items, cursorOf, requestedLimit), Clamp(requestedLimit);
    var next := FetchNext(prefix, items, cursorOf, requestedLimit, sofar);
    pages := sofar + [next];
    if !next.hasMore {
      EndChain(server, limit, sofar, next);
    } else {
      ExtendChain(server, limit, sofar, next);
      assert Start(|pages|, limit) == Start(|sofar|, limit) + limit;
      pages := FollowingEnds(prefix, items, cursorOf, requestedLimit, pages);
    }
  }

  /** Some chain of pages covers the list if and only if every boundary inside it resumes. */
  lemma {:induction false} CoverageExact<T>(prefix: string, items: seq<T>, cursorOf: T -> string, requestedLimit: usize)
    requires |items| <= USIZE_MAX && (forall i :: 0 <= i < |items| ==> prefix <= cursorOf(items[i]))
    ensures (exists pages ::
               Followed(Serving(prefix, items, cursorOf, requestedLimit), pages) && Concat(pages) == items)
            <==> CursorsResume(items, cursorOf, Clamp(requestedLimit))
  {
    var server := Serving(prefix, items, cursorOf, requestedLimit);
    if pages :| Followed(server, pages) && Concat(pages) == items {
      FollowingCoversList(prefix, items, cursorOf, requestedLimit, pages);
    }
    if CursorsResume(items, cursorOf, Clamp(requestedLimit)) {
      var pages := FollowingEnds(prefix, items, cursorOf, requestedLimit, []);
      FollowingCoversList(prefix, items, cursorOf, requestedLimit, pages);
    }
  }

  /** Item cursors that tell the items apart always do, at every limit: a chain exists and each covers. */
  lemma {:induction false} UniqueCursorsCover<T>(prefix: string, items: seq<T>, cursorOf: T -> string,
                                                 requestedLimit: usize)
    requires |items| <= USIZE_MAX && (forall i :: 0 <= i < |items| ==> prefix <= cursorOf(items[i]))
    requires forall i, j :: 0 <= i < j < |items| ==> cursorOf(items[i]) != cursorOf(items[j])
    ensures exists pages :: Followed(Serving(prefix, items, cursorOf, requestedLimit), pages)
    ensures forall pages :: Followed(Serving(prefix, items, cursorOf, requestedLimit), pages) ==> Concat(pages) == items
  {
    UniqueCursorsResume(items, cursorOf, Clamp(requestedLimit));
    CoverageExact(prefix, items, cursorOf, requestedLimit);
    forall pages | Followed(Serving(prefix, items, cursorOf, requestedLimit), pages) ensures Concat(pages) == items {
      FollowingCoversList(prefix, items, cursorOf, requestedLimit, pages);
    }
  }

  // ---------------------------------------------------------------- a list with a shared cursor

  const TWINS: seq<nat> := [7, 7, 8]

  function TwinCursor(n: nat): string {
    if n == 7 then "ref:a" else "ref:b"
  }

  lemma TwinSlices()
    ensures Slice(TWINS, 0, 2) == [7, 7] && Slice(TWINS, 1, 2) == [7, 8]
  {
    assert |TWINS| == 3 && TWINS[0] == 7 && TWINS[1] == 7 && TWINS[2] == 8;
    assert TWINS[0..2] == [7, 7] && TWINS[1..3] == [7, 8];
  }

  /** In pages of two the second page starts after the first twin and shows the second one again. */
  lemma TwinShownAgain()
    ensures var first := Page([7, 7], 2, 0, None, Some("ref:a"), 3, true, 1);
            var last := Page([7, 8], 2, 1, Some("ref:a"), None, 3, false, 0);
            && Followed(Serving("ref:", TWINS, TwinCursor, 2), [first, last])
            && Concat([first, last]) == [7, 7, 7, 8]
  {
    var first: Page<nat> := Page([7, 7], 2, 0, None, Some("ref:a"), 3, true, 1);
    var last: Page<nat> := Page([7, 8], 2, 1, Some("ref:a"), None, 3, false, 0);
    var server, pages := Serving("ref:", TWINS, TwinCursor, 2), [first, last];
    TwinSlices();
    assert "ref:" <= "ref:a" && Position(TWINS, TwinCursor, "ref:a") == Some(0);
    assert Answers(server, pages, 0) && Answers(server, pages, 1);
    assert pages[..1] == [first] && [first][..0] == [];
    assert Concat([first]) == [7, 7];
  }

  /** In pages of one the second page leads back to itself, so following never ends. */
  lemma TwinNeverEnds(pages: seq<Page<nat>>)
    ensures !Followed(Serving("ref:", TWINS, TwinCursor, 1), pages)
  {
    if Followed(Serving("ref:", TWINS, TwinCursor, 1), pages) {
      var last := |pages| - 1;
      StuckOnTwin(pages, last);
      AnswerShape("ref:", TWINS, TwinCursor, 1, pages, last);
      LastPageEnds(TWINS, pages[last]);
    }
  }

  lemma {:induction false} StuckOnTwin(pages: seq<Page<nat>>, i: nat)
    requires Followed(Serving("ref:", TWINS, TwinCursor, 1), pages) && i < |pages|
    ensures pages[i].offset <= 1
  {
    if i == 0 {
      FirstOffset("ref:", TWINS, TwinCursor, 1, pages);
    } else {
      StuckOnTwin(pages, i - 1);
      FollowedStep("ref:", TWINS, TwinCursor, 1, pages, i - 1);
      assert TwinCursor(TWINS[0]) == TwinCursor(TWINS[1]);
      assert !Resumes(TWINS, TwinCursor, 2);
    }
  }

  // ---------------------------------------------------------------- offset cursors

  lemma DigitsAreNotPlus(n: nat)
    ensures Digits(n)[0] != '+'
  {
  }

  lemma OffsetCursorParses(n: usize)
    ensures ParseUsize(StripPrefix("offset:", "offset:" + Digits(n))) == Some(n)
  {
    assert StripPrefix("offset:", "offset:" + Digits(n)) == Digits(n);
    ValueOfDigits(n);
    DigitsAreNotPlus(n);
  }

  /** An offset cursor resumes at the offset it was printed from, under every item-cursor prefix in use. */
  lemma OffsetCursorRoundTrip<T>(prefix: string, items: seq<T>, cursorOf: T -> string, n: usize)
    requires |items| <= USIZE_MAX && prefix in {"ref:", "related:", "impact:"}
    ensures StartOf(prefix, items, cursorOf, None, Some("offset:" + Digits(n))) == Ok(n)
  {
    assert ("offset:" + Digits(n))[0] == 'o' && prefix[0] != 'o';
    OffsetCursorParses(n);
  }

  /** A caller that feeds the offset of each next cursor back to `paginate_collection`. */
  function OffsetServing<T>(items: seq<T>, requestedLimit: usize): Server<T>
    requires |items| <= USIZE_MAX
  {
    (cursor: Option<string>) =>
      match cursor
      case None => Ok(PaginateCollection(items, 0, requestedLimit))
      case Some(value) =>
        match ParseUsize(StripPrefix("offset:", value))
        case Some(offset) => Ok(PaginateCollection(items, offset, requestedLimit))
        case None => Err(InvalidCursor)
  }

  /** Page k of a server whose next cursors lead from page to page. */
  ghost predicate Leads<T(!new)>(server: Server<T>, page: nat -> Page<T>) {
    && server(None) == Ok(page(0))
    && forall k: nat :: LeadsOn(server, page, k)
  }

  ghost predicate LeadsOn<T>(server: Server<T>, page: nat -> Page<T>, k: nat) {
    page(k).hasMore ==> server(page(k).nextCursor) == Ok(page(k + 1))
  }

  /** Following such a server returns its pages one after the other. */
  lemma {:induction false} LedTo<T(!new)>(server: Server<T>, page: nat -> Page<T>, pages: seq<Page<T>>, i: nat)
    requires Leads(server, page) && Followed(server, pages) && i < |pages|
    ensures pages[i] == page(i)
  {
    assert Answers(server, pages, i);
    if i > 0 {
      LedTo(server, page, pages, i - 1);
      assert LeadsOn(server, page, i - 1) && pages[i - 1].hasMore;
    }
  }

  /** And ends if only the first `bound` pages can have more. */
  lemma {:induction false} LeadsToEnd<T(!new)>(server: Server<T>, page: nat -> Page<T>, bound: nat, n: nat)
    returns (pages: seq<Page<T>>)
    requires Leads(server, page) && (forall k: nat :: page(k).hasMore ==> k < bound)
    requires forall k: nat :: k < n ==> page(k).hasMore
    ensures |pages| > n && Followed(server, pages)
    decreases bound - n
  {
    if page(n).hasMore {
      pages := LeadsToEnd(server, page, bound, n + 1);
    } else {
      pages := seq(n + 1, i requires 0 <= i => page(i));
      forall i: nat | i < |pages| ensures Answers(server, pages, i) {
        assert i > 0 ==> page(i - 1).hasMore && LeadsOn(server, page, i - 1);
      }
    }
  }

  /** The page at tile k. */
  function OffsetPage<T>(items: seq<T>, requestedLimit: usize): nat -> Page<T> {
    (k: nat) => PaginateCollection(items, Min(Start(k, Clamp(requestedLimit)), USIZE_MAX), requestedLimit)
  }

  lemma OffsetPageShape<T>(items: seq<T>, requestedLimit: usize, k: nat)
    requires |items| <= USIZE_MAX
    ensures var page := OffsetPage(items, requestedLimit)(k);
            && Accounts(items, page) && page.limit == Clamp(requestedLimit)
            && page.offset == Min(Start(k, Clamp(requestedLimit)), USIZE_MAX)
            && (page.hasMore ==> page.nextCursor == Some("offset:" + Digits(Start(k + 1, Clamp(requestedLimit)))))
            && (page.hasMore ==> Start(k + 1, Clamp(requestedLimit)) < |items|)
  {
    CollectionAccounts(items, Min(Start(k, Clamp(requestedLimit)), USIZE_MAX), requestedLimit);
  }

  lemma OffsetCursorsLead<T(!new)>(items: seq<T>, requestedLimit: usize)
    requires |items| <= USIZE_MAX
    ensures Leads(OffsetServing(items, requestedLimit), OffsetPage(items, requestedLimit))
  {
    var server, page := OffsetServing(items, requestedLimit), OffsetPage(items, requestedLimit);
    forall k: nat ensures LeadsOn(server, page, k) {
      OffsetPageShape(items, requestedLimit, k);
      if page(k).hasMore {
        OffsetCursorParses(Start(k + 1, Clamp(requestedLimit)));
      }
    }
  }

  lemma FollowedOffsetShape<T(!new)>(items: seq<T>, requestedLimit: usize, pages: seq<Page<T>>, i: nat)
    requires |items| <= USIZE_MAX && Followed(OffsetServing(items, requestedLimit), pages) && i < |pages|
    ensures Accounts(items, pages[i]) && pages[i].limit == Clamp(requestedLimit)
    ensures pages[i].offset == Min(Start(i, Clamp(requestedLimit)), USIZE_MAX)
    ensures pages[i].hasMore ==> Start(i + 1, Clamp(requestedLimit)) < |items|
  {
    OffsetCursorsLead(items, requestedLimit);
    LedTo(OffsetServing(items, requestedLimit), OffsetPage(items, requestedLimit), pages, i);
    OffsetPageShape(items, requestedLimit, i);
  }

  lemma OffsetTile<T(!new)>(items: seq<T>, requestedLimit: usize, pages: seq<Page<T>>, i: nat)
    requires |items| <= USIZE_MAX && Followed(OffsetServing(items, requestedLimit), pages) && i < |pages|
    ensures IsTile(items, Clamp(requestedLimit), pages, i)
  {
    FollowedOffsetShape(items, requestedLimit, pages, i);
    if i > 0 {
      FollowedOffsetShape(items, requestedLimit, pages, i - 1);
      assert pages[i - 1].hasMore;
    }
  }

  /** Following offset cursors yields every item once, in order. */
  lemma {:induction false} FollowingOffsetsCoversList<T(!new)>(items: seq<T>, requestedLimit: usize,
                                                              pages: seq<Page<T>>)
    requires |items| <= USIZE_MAX && Followed(OffsetServing(items, requestedLimit), pages)
    ensures Concat(pages) == items
    ensures NeededPages(|items|, Clamp(requestedLimit), |pages|)
  {
    forall i: nat | i < |pages| ensures IsTile(items, Clamp(requestedLimit), pages, i) {
      OffsetTile(items, requestedLimit, pages, i);
    }
    TilesCover(items, Clamp(requestedLimit), pages);
  }

  /** Following offset cursors always ends. */
  lemma FollowingOffsetsEnds<T(!new)>(items: seq<T>, requestedLimit: usize) returns (pages: seq<Page<T>>)
    requires |items| <= USIZE_MAX
    ensures Followed(OffsetServing(items, requestedLimit), pages)
  {
    var page := OffsetPage(items, requestedLimit);
    OffsetCursorsLead(items, requestedLimit);
    forall k: nat | page(k).hasMore ensures k < |items| {
      OffsetPageShape(items, requestedLimit, k);
      StartAtLeast(k + 1, Clamp(requestedLimit));
    }
    pages := LeadsToEnd(OffsetServing(items, requestedLimit), page, |items|, 0);
  }

  lemma {:induction false} StartAtLeast(k: nat, limit: nat)
    requires 1 <= limit
    ensures k <= Start(k, limit)
  {
    if k > 0 { StartAtLeast(k - 1, limit); }
  }

  // ---------------------------------------------------------------- edits between pages

  lemma PositionAfter<T>(before: seq<T>, x: T, after: seq<T>, cursorOf: T -> string)
    requires forall i :: 0 <= i < |before| ==> cursorOf(before[i]) != cursorOf(x)
    ensures Position(before + [x] + after, cursorOf, cursorOf(x)) == Some(|before|)
  {
    var items := before + [x] + after;
    assert items[|before|] == x;
    assert forall i :: 0 <= i < |before| ==> items[i] == before[i];
  }

  /** Whatever was inserted or deleted before the cursor item, the next page has the same items,
      the same continuation and the same count of what is left. */
  lemma EditsBeforeCursor<T>(prefix: string, before: seq<T>, edited: seq<T>, x: T, after: seq<T>,
                             cursorOf: T -> string, requestedLimit: usize)
    requires |before + [x] + after| <= USIZE_MAX && |edited + [x] + after| <= USIZE_MAX && prefix <= cursorOf(x)
    requires forall i :: 0 <= i < |before| ==> cursorOf(before[i]) != cursorOf(x)
    requires forall i :: 0 <= i < |edited| ==> cursorOf(edited[i]) != cursorOf(x)
    ensures var c := Some(cursorOf(x));
            var p := PaginateItems(prefix, before + [x] + after, cursorOf, None, c, requestedLimit);
            var q := PaginateItems(prefix, edited + [x] + after, cursorOf, None, c, requestedLimit);
            && p.Ok? && q.Ok? && p.value.items == q.value.items == Slice(after, 0, Clamp(requestedLimit))
            && p.value.nextCursor == q.value.nextCursor
            && p.value.hasMore == q.value.hasMore && p.value.omitted == q.value.omitted
  {
    PageAfterItem(prefix, before, x, after, cursorOf, requestedLimit);
    PageAfterItem(prefix, edited, x, after, cursorOf, requestedLimit);
  }

  lemma PageAfterItem<T>(prefix: string, before: seq<T>, x: T, after: seq<T>,
                         cursorOf: T -> string, requestedLimit: usize)
    requires |before + [x] + after| <= USIZE_MAX && prefix <= cursorOf(x)
    requires forall i :: 0 <= i < |before| ==> cursorOf(before[i]) != cursorOf(x)
    ensures var items := before + [x] + after;
            var rest := Slice(after, 0, Clamp(requestedLimit));
            PaginateItems(prefix, items, cursorOf, None, Some(cursorOf(x)), requestedLimit)
            == Ok(Page(rest, Clamp(requestedLimit), |before| + 1, Some(cursorOf(x)),
                       if |rest| < |after| then LastCursor(rest, cursorOf) else None,
                       |items|, |rest| < |after|, |after| - |rest|))
  {
    var items, limit := before + [x] + after, Clamp(requestedLimit);
    PositionAfter(before, x, after, cursorOf);
    assert Slice(items, |before| + 1, limit) == Slice(after, 0, limit);
  }

  /** A request with an item cursor fails exactly when no item carries that cursor any more. */
  lemma GoneCursorFails<T>(prefix: string, items: seq<T>, cursorOf: T -> string, requestedOffset: Option<usize>,
                           value: string, requestedLimit: usize)
    requires |items| <= USIZE_MAX && prefix <= value
    ensures PaginateItems(prefix, items, cursorOf, requestedOffset, Some(value), requestedLimit) == Err(CursorGone)
            <==> forall i :: 0 <= i < |items| ==> cursorOf(items[i]) != value
  {
    var at := Position(items, cursorOf, value);
  }
}
