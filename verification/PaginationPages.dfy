/** Completeness against a server that cuts its collection into pages as it
    pleases, asked for by number or by the offset where they begin. */
module PaginationPages {
  import opened Wrappers
  import opened Decimal
  import opened Pagination
  import opened PaginationRuns
  import opened PaginationHonest

  /** The pages from the first position asked for on. */
  datatype Book = Book(cfg: Config, pageSize: int, shape: Shape, pages: seq<seq<Item>>, first: int)

  /** Where page `k` is asked for. */
  function PlaceOf(b: Book, k: nat): int
    requires k <= |b.pages|
  {
    b.first + if b.cfg.kind.PageKind? then k else |Flatten(b.pages[..k])|
  }

  /** Page numbers, or offsets that leave the size to the server: with a declared size
      offsets ask where they like, not where pages begin (module PaginationHonest). */
  ghost predicate BookOk(b: Book) {
    && !b.cfg.kind.CursorKind? && b.cfg.cursorParam != "" && b.first >= FirstPosition(b.cfg)
    && (b.cfg.kind.OffsetKind? ==> b.pageSize <= 0)
    && !RuleOf(b.cfg, b.shape).Nothing?
    && b.first + |b.pages| + |Flatten(b.pages)| <= INT64_MAX
    && (forall k :: 0 <= k < |b.pages| ==> b.pages[k] != [] && (k > 0 ==> b.pages[k] != b.pages[k - 1]))
  }

  /** The page that begins at a place, the number of pages at the end of the last
      one, and None anywhere else. */
  function PageFrom(b: Book, place: int, k: nat): Option<nat>
    requires k <= |b.pages|
  {
    if PlaceOf(b, k) == place then Some(k) else if k == 0 then None else PageFrom(b, place, k - 1)
  }

  function BookReply(b: Book, params: Params): Reply {
    match Position(b.cfg, Get(params, b.cfg.cursorParam))
    case None => TransportError("bad position")
    case Some(place) =>
      match PageFrom(b, place, |b.pages|)
      case None => TransportError("bad position")
      case Some(k) =>
        var items := if k < |b.pages| then b.pages[k] else [];
        match b.shape
        case Bare => BareArray(items)
        case Wrapped(field) => Object(Some(Collection(field, items)), "", Some(k + 1 < |b.pages|))
  }

  function BookServer(b: Book): Server {
    (call: nat, params: Params) => BookReply(b, params)
  }

  lemma PlacesGrow(b: Book, k: nat)
    requires BookOk(b) && k < |b.pages|
    ensures PlaceOf(b, k + 1) == PlaceOf(b, k) + if b.cfg.kind.PageKind? then 1 else |b.pages[k]|
    ensures PlaceOf(b, k) < PlaceOf(b, k + 1) <= INT64_MAX && b.first <= PlaceOf(b, k)
  {
    hide Flatten;
    assert b.pages[..k + 1] == b.pages[..k] + [b.pages[k]];
    FlattenOne(b.pages[..k], b.pages[k]);
    FlattenPrefix(b.pages, k + 1);
  }

  lemma {:induction false} PlacesDiffer(b: Book, k: nat, n: nat)
    requires BookOk(b) && k < n <= |b.pages|
    ensures PlaceOf(b, k) < PlaceOf(b, n)
  {
    hide Flatten, PlaceOf;
    PlacesGrow(b, n - 1);
    if k < n - 1 {
      PlacesDiffer(b, k, n - 1);
    }
  }

  lemma {:induction false} PageIsFound(b: Book, k: nat, n: nat)
    requires BookOk(b) && k <= n <= |b.pages|
    ensures PageFrom(b, PlaceOf(b, k), n) == Some(k)
  {
    hide PlaceOf;
    if k < n {
      PlacesDiffer(b, k, n);
      PageIsFound(b, k, n - 1);
    }
  }

  /** Before page `k` is asked for, the pages before it have been collected. */
  ghost predicate OnBook(b: Book, w: Walk, k: nat) {
    && k <= |b.pages| && w.page == k
    && Position(b.cfg, Get(w.clean, b.cfg.cursorParam)) == Some(PlaceOf(b, k))
    && w.items == Flatten(b.pages[..k]) && w.previous == LastPage(b.pages[..k])
    && w.field == (if b.shape.Bare? || !w.shapeSet then "" else b.shape.field)
  }

  function PageOf(b: Book, k: nat): seq<Item> {
    if k < |b.pages| then b.pages[k] else []
  }

  /** A page is the last, or too small for the paginator to ask for another. */
  predicate StopsAt(b: Book, k: nat) {
    match RuleOf(b.cfg, b.shape)
    case Flag => k + 1 >= |b.pages|
    case _ => k >= |b.pages| || |b.pages[k]| < b.pageSize
  }

  ghost predicate BookTurnOk(b: Book, k: nat, w: Walk, t: Turn) {
    var all := w.items + PageOf(b, k);
    if StopsAt(b, k) then t.Stop? && t.ending.Finished? && t.ending.truncated == None && t.ending.walk.items == all
    else if k + 1 < MAX_PAGES then t.GoOn? && OnBook(b, t.walk, k + 1)
    else
      && t.Stop? && t.ending.Finished? && t.ending.truncated == Some(MaxPages)
      && t.ending.walk.page == MAX_PAGES && t.ending.walk.items == all
  }

  /** After page `k` was taken in: on to the next place. */
  lemma OnToNext(b: Book, w: Walk, k: nat, step: int)
    requires BookOk(b) && k < |b.pages| && w.page == k + 1
    requires Position(b.cfg, Get(w.clean, b.cfg.cursorParam)) == Some(PlaceOf(b, k))
    requires w.items == Flatten(b.pages[..k + 1]) && w.previous == Some(b.pages[k])
    requires w.field == (if b.shape.Bare? || !w.shapeSet then "" else b.shape.field)
    requires step == PlaceOf(b, k + 1) - PlaceOf(b, k)
    ensures var t := AdvanceBy(w, b.cfg, step);
      if k + 1 < MAX_PAGES then t.GoOn? && OnBook(b, t.walk, k + 1)
      else t == Stop(Finished(w, Some(MaxPages)))
  {
    hide Atoi, Itoa, Wrap, Flatten, PlaceOf;
    PlacesGrow(b, k);
    WrapSmall(PlaceOf(b, k + 1));
    PositionAfter(b.cfg, PlaceOf(b, k + 1));
  }

  lemma FullBookPage(b: Book, w: Walk, k: nat)
    requires BookOk(b) && k <= |b.pages| && w.page == k + 1 && RuleOf(b.cfg, b.shape).FullPages?
    requires Position(b.cfg, Get(w.clean, b.cfg.cursorParam)) == Some(PlaceOf(b, k))
    requires k < |b.pages| ==> w.items == Flatten(b.pages[..k + 1]) && w.previous == Some(b.pages[k])
    requires w.field == (if b.shape.Bare? || !w.shapeSet then "" else b.shape.field)
    ensures var t := FullPageOrStop(w, b.cfg, b.pageSize, |PageOf(b, k)|);
      if StopsAt(b, k) then t == Stop(Finished(w, None))
      else if k + 1 < MAX_PAGES then t.GoOn? && OnBook(b, t.walk, k + 1)
      else t == Stop(Finished(w, Some(MaxPages)))
  {
    hide Flatten, AdvanceBy, PlaceOf, Position, OnBook;
    if !StopsAt(b, k) {
      PlacesGrow(b, k);
      OnToNext(b, w, k, PlaceOf(b, k + 1) - PlaceOf(b, k));
    }
  }

  lemma FlaggedBookPage(b: Book, w: Walk, k: nat)
    requires BookOk(b) && k <= |b.pages| && w.page == k + 1 && b.shape.Wrapped?
    requires Position(b.cfg, Get(w.clean, b.cfg.cursorParam)) == Some(PlaceOf(b, k))
    requires k < |b.pages| ==> w.items == Flatten(b.pages[..k + 1]) && w.previous == Some(b.pages[k])
    requires w.field == (if b.shape.Bare? || !w.shapeSet then "" else b.shape.field)
    ensures var t := FollowTurn(w, b.cfg, b.pageSize, |PageOf(b, k)|, "", Some(k + 1 < |b.pages|));
      if StopsAt(b, k) then t == Stop(Finished(w, None))
      else if k + 1 < MAX_PAGES then t.GoOn? && OnBook(b, t.walk, k + 1)
      else t == Stop(Finished(w, Some(MaxPages)))
  {
    hide Flatten, AdvanceBy, PlaceOf, Position, OnBook, FullPageOrStop;
    if RuleOf(b.cfg, b.shape).FullPages? {
      FullBookPage(b, w, k);
    } else if k + 1 < |b.pages| {
      PlacesGrow(b, k);
      OnToNext(b, w, k, PlaceOf(b, k + 1) - PlaceOf(b, k));
    }
  }

  lemma TakenPages(b: Book, w: Walk, k: nat)
    requires BookOk(b) && OnBook(b, w, k)
    ensures w.previous != Some(PageOf(b, k))
    ensures k < |b.pages| ==> w.items + PageOf(b, k) == Flatten(b.pages[..k + 1])
  {
    hide Flatten, PlaceOf, Position;
    if k < |b.pages| {
      assert b.pages[..k + 1] == b.pages[..k] + [b.pages[k]];
      FlattenOne(b.pages[..k], b.pages[k]);
    }
  }

  lemma BookTurn(b: Book, w: Walk, k: nat)
    requires BookOk(b) && OnBook(b, w, k) && w.page < MAX_PAGES
    ensures BookTurnOk(b, k, w, TurnOn(Asked(w, b.cfg), b.cfg, b.pageSize, BookReply(b, w.clean)))
  {
    hide Flatten, PlaceOf, Position, FollowTurn, FullPageOrStop, EqualFold, StopsAt, PageFrom, BookOk;
    PageIsFound(b, k, |b.pages|);
    TakenPages(b, w, k);
    var a, page := Asked(w, b.cfg), PageOf(b, k);
    match b.shape {
      case Bare =>
        FullBookPage(b, Keep(a.(shapeSet := true, fetched := a.fetched + [page]), page), k);
      case Wrapped(field) =>
        FoldsToItself(field);
        var w1 := Opened(a, Collection(field, page));
        FlaggedBookPage(b, Keep(w1, page), k);
    }
  }

  /** Every page but the last is large enough to be followed, as far as the page
      limit lets the walk come. */
  ghost predicate EnoughFrom(b: Book, k: nat) {
    forall j :: k <= j < MAX_PAGES && j + 1 < |b.pages| ==> !StopsAt(b, j)
  }

  /** What has been read when the walk ends with page `k`. */
  lemma EndsWith(b: Book, w: Walk, k: nat)
    requires BookOk(b) && OnBook(b, w, k)
    ensures w.items + PageOf(b, k) <= Flatten(b.pages)
    ensures w.items + PageOf(b, k) == Flatten(b.pages) <==> k + 1 >= |b.pages|
  {
    hide Flatten, PlaceOf, Position;
    TakenPages(b, w, k);
    if k + 1 < |b.pages| {
      assert b.pages[..k + 2] == b.pages[..k + 1] + [b.pages[k + 1]];
      FlattenOne(b.pages[..k + 1], b.pages[k + 1]);
      FlattenPrefix(b.pages, k + 2);
    } else {
      assert k < |b.pages| ==> b.pages[..k + 1] == b.pages;
      assert k == |b.pages| ==> b.pages[..k] == b.pages;
    }
  }

  lemma {:induction false} BookWalk(b: Book, w: Walk, k: nat)
    requires BookOk(b) && OnBook(b, w, k) && w.page < MAX_PAGES
    ensures var e := WalkOn(BookServer(b), b.cfg, b.pageSize, w);
      && (CompleteOrSaysSo(e, Flatten(b.pages)) <==> EnoughFrom(b, k))
      && (ReadInFull(e, Flatten(b.pages)) <==> EnoughFrom(b, k))
    decreases MAX_PAGES - w.page
  {
    hide TurnOn, BookReply, BookOk, Flatten, PlaceOf, Position;
    BookTurn(b, w, k);
    EndsWith(b, w, k);
    var t := TurnOn(Asked(w, b.cfg), b.cfg, b.pageSize, BookReply(b, w.clean));
    if t.GoOn? {
      BookWalk(b, t.walk, k + 1);
    }
  }

  /** A server may cut its collection into pages of any sizes.  All of it is
      returned, or a marked prefix, if and only if each page but the last, up to
      the page limit, holds as many items as the paginator counts on, or a
      has-more flag tells; always, when the size is left to the server. */
  lemma PagesOfAnySize(b: Book, params: Params)
    requires BookOk(b) && b.pageSize == PageSize(b.cfg, Clean(b.cfg, params))
    requires Position(b.cfg, Get(Begin(b.cfg, params).clean, b.cfg.cursorParam)) == Some(b.first)
    ensures var e := FetchAll(BookServer(b), b.cfg, params);
      var enough := RuleOf(b.cfg, b.shape).Flag?
                    || forall k :: 0 <= k < MAX_PAGES && k + 1 < |b.pages| ==> |b.pages[k]| >= b.pageSize;
      && (CompleteOrSaysSo(e, Flatten(b.pages)) <==> enough)
      && (ReadInFull(e, Flatten(b.pages)) <==> enough)
      && (b.pageSize <= 0 ==> enough)
  {
    hide Clean, WithLimit, PageSize, Position, WalkOn, BookServer;
    var w := Begin(b.cfg, params);
    assert b.pages[..0] == [];
    assert OnBook(b, w, 0);
    BookWalk(b, w, 0);
    forall k | 0 <= k < MAX_PAGES && k + 1 < |b.pages|
      ensures !StopsAt(b, k) <==> RuleOf(b.cfg, b.shape).Flag? || |b.pages[k]| >= b.pageSize {
    }
  }
}
