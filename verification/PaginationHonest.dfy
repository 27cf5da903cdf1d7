/** Completeness against a server that serves one fixed collection by offset or
    page number. */
module PaginationHonest {
  import opened Wrappers
  import opened Decimal
  import opened Pagination
  import opened PaginationRuns

  /** A bare array, or an object with the collection under `field` and a
      truthful has-more flag. */
  datatype Shape = Bare | Wrapped(field: string)

  function MinI(x: int, y: int): int { if x < y then x else y }

  /** Items `from` .. `from + size` of the collection, as far as they exist. */
  function PageAt(xs: seq<Item>, from: nat, size: nat): seq<Item> {
    xs[MinI(from, |xs|)..MinI(from + size, |xs|)]
  }

  /** Where in the collection a position points, for pages of `size` items. */
  function StartOf(cfg: Config, position: int, size: nat): int {
    if cfg.kind.PageKind? then (position - 1) * size else position
  }

  function HonestReply(cfg: Config, xs: seq<Item>, size: nat, shape: Shape, params: Params): Reply {
    match Position(cfg, Get(params, cfg.cursorParam))
    case None => TransportError("bad position")
    case Some(position) =>
      var from := StartOf(cfg, position, size);
      if from < 0 then TransportError("bad position")
      else
        var items := PageAt(xs, from, size);
        match shape
        case Bare => BareArray(items)
        case Wrapped(field) => Object(Some(Collection(field, items)), "", Some(from + |items| < |xs|))
  }

  function HonestServer(cfg: Config, xs: seq<Item>, size: nat, shape: Shape): Server {
    (call: nat, params: Params) => HonestReply(cfg, xs, size, shape, params)
  }

  /** The whole collection from the starting position, or a marked prefix of it. */
  ghost predicate CompleteOrSaysSo(e: Ending, rest: seq<Item>) {
    && e.Finished?
    && (e.walk.items == rest || (e.truncated.Some? && e.walk.items <= rest))
  }

  /** The same without a way out: only the page limit leaves anything unread. */
  ghost predicate ReadInFull(e: Ending, rest: seq<Item>) {
    && e.Finished?
    && ((e.truncated == None && e.walk.items == rest)
        || (e.truncated == Some(MaxPages) && e.walk.page == MAX_PAGES && e.walk.items <= rest))
  }

  /** The fixed data of one walk: what is asked for and what the server does. */
  datatype Case = Case(cfg: Config, pageSize: int, xs: seq<Item>, size: nat, shape: Shape, first: int)

  function Start(c: Case): int { StartOf(c.cfg, c.first, c.size) }

  function Rest(c: Case): seq<Item>
    requires Start(c) >= 0
  {
    c.xs[MinI(Start(c), |c.xs|)..]
  }

  /** What tells the paginator whether there is more: a full page, the has-more
      flag, or nothing, when it waits for a cursor the server never sends. */
  datatype Rule = FullPages | Flag | Nothing

  function RuleOf(cfg: Config, shape: Shape): Rule {
    if shape.Bare? || (cfg.hasMoreField == "" && cfg.nextCursorPath == "") then FullPages
    else if cfg.hasMoreField != "" then Flag
    else Nothing
  }

  ghost predicate CaseOk(c: Case) {
    && !c.cfg.kind.CursorKind? && c.cfg.cursorParam != ""
    && Distinct(c.xs) && c.size >= 1 && c.first >= FirstPosition(c.cfg)
    && Start(c) >= 0
    && Start(c) + |c.xs| + c.size + c.first + MAX_PAGES <= INT64_MAX && c.pageSize <= INT64_MAX
  }

  /** The server's pages are what the paginator takes them to be.  Offsets need
      the page size the paginator counts on, unless it leaves the size to the
      server; page numbers need one at least as large, or a has-more flag; and
      one page may be enough anyway. */
  predicate SizesAgree(c: Case)
    requires Start(c) >= 0
  {
    var onePage := |Rest(c)| <= c.size;
    match RuleOf(c.cfg, c.shape)
    case FullPages =>
      if c.cfg.kind.PageKind? then onePage || c.pageSize <= c.size
      else c.pageSize <= 0 || c.size == c.pageSize || (onePage && |Rest(c)| <= c.pageSize)
    case Flag => c.cfg.kind.PageKind? || onePage || c.pageSize <= 0 || c.size == c.pageSize
    case Nothing => onePage
  }

  /** Between two turns: everything before position `p` has been collected. */
  ghost predicate OnTrack(c: Case, w: Walk, p: int)
    requires Start(c) >= 0
  {
    var start, n := StartOf(c.cfg, p, c.size), |c.xs|;
    && Position(c.cfg, Get(w.clean, c.cfg.cursorParam)) == Some(p)
    && Start(c) <= start
    && (c.cfg.kind.PageKind? ==> p == c.first + w.page)
    && w.items == c.xs[MinI(Start(c), n)..MinI(start, n)]
    && (w.previous.Some? ==> w.previous.value != [] && w.previous.value[0] in w.items)
    && w.field == (if c.shape.Bare? || !w.shapeSet then "" else c.shape.field)
  }

  lemma NextPageStart(cfg: Config, p: int, size: nat)
    ensures StartOf(cfg, p + 1, size) == StartOf(cfg, p, size) + if cfg.kind.PageKind? then size else 1
  {
    if cfg.kind.PageKind? {
      assert p * size == (p - 1) * size + size;
    }
  }

  /** A nonempty next page is not the previous one again. */
  lemma NewPageDiffers(c: Case, w: Walk, p: int)
    requires CaseOk(c) && OnTrack(c, w, p)
    ensures w.previous != Some(PageAt(c.xs, StartOf(c.cfg, p, c.size), c.size))
  {
    hide StartOf, Position;
    var start, n := StartOf(c.cfg, p, c.size), |c.xs|;
    if w.previous.Some? && start < n {
      var x := w.previous.value[0];
      var i :| MinI(Start(c), n) <= i < start && c.xs[i] == x;
      assert PageAt(c.xs, start, c.size)[0] == c.xs[start];
    }
  }

  lemma PagesAdjoin(xs: seq<Item>, first: nat, start: nat, size: nat)
    requires first <= start
    ensures var n, page := |xs|, PageAt(xs, start, size);
      && |page| == (if start >= n then 0 else MinI(size, n - start))
      && xs[MinI(first, n)..MinI(start, n)] + page == xs[MinI(first, n)..MinI(start + size, n)]
      && xs[MinI(first, n)..MinI(start + size, n)] <= xs[MinI(first, n)..]
      && (start + |page| >= n ==> xs[MinI(first, n)..MinI(start + size, n)] == xs[MinI(first, n)..])
  {
  }

  /** What taking in one honest page yields. */
  lemma PageTaken(c: Case, w: Walk, p: int)
    requires CaseOk(c) && OnTrack(c, w, p)
    ensures var start, n := StartOf(c.cfg, p, c.size), |c.xs|; var page := PageAt(c.xs, start, c.size);
      && w.items + page == c.xs[MinI(Start(c), n)..MinI(start + c.size, n)]
      && |page| == (if start >= n then 0 else MinI(c.size, n - start))
      && (page != [] ==> page[0] in w.items + page)
      && w.items + page <= Rest(c)
      && (start + |page| >= n ==> w.items + page == Rest(c))
  {
    hide StartOf, Position, Distinct, PageAt;
    var start := StartOf(c.cfg, p, c.size);
    PagesAdjoin(c.xs, Start(c), start, c.size);
    var page := PageAt(c.xs, start, c.size);
    assert page != [] ==> (w.items + page)[|w.items|] == page[0];
  }

  /** The outcome of a turn that keeps on track. */
  ghost predicate StaysOnTrack(c: Case, p: int, t: Turn)
    requires Start(c) >= 0
  {
    match t
    case GoOn(w) => exists q :: q > p && OnTrack(c, w, q)
    case Stop(e) => ReadInFull(e, Rest(c))
  }

  /** Moving on by `step` from a page that was not the last. */
  lemma AdvanceStays(c: Case, w: Walk, p: int, step: int)
    requires CaseOk(c) && 0 < w.page <= MAX_PAGES && step >= 1
    requires Position(c.cfg, Get(w.clean, c.cfg.cursorParam)) == Some(p)
    requires var start, n := StartOf(c.cfg, p, c.size), |c.xs|;
      && 0 <= Start(c) <= start < n
      && (c.cfg.kind.PageKind? ==> step == 1 && p == c.first + w.page - 1)
      && w.items == c.xs[MinI(Start(c), n)..MinI(start + c.size, n)]
      && (c.cfg.kind.OffsetKind? ==> MinI(start + step, n) == MinI(start + c.size, n) && step <= INT64_MAX - n)
      && (w.previous.Some? ==> w.previous.value != [] && w.previous.value[0] in w.items)
      && w.field == (if c.shape.Bare? || !w.shapeSet then "" else c.shape.field)
    ensures StaysOnTrack(c, p, AdvanceBy(w, c.cfg, step))
  {
    hide Atoi, Itoa, Wrap, Distinct;
    NextPageStart(c.cfg, p, c.size);
    PositionAfter(c.cfg, p + step);
    var t := AdvanceBy(w, c.cfg, step);
    WrapSmall(p + step);
    if t.GoOn? {
      assert OnTrack(c, t.walk, p + step);
    }
  }

  lemma WrapSmall(n: int)
    ensures IsInt64(n) ==> Wrap(n) == n
  {
  }

  /** The walk after the page at `p` was taken in, before it is decided how to go on. */
  ghost predicate TookPage(c: Case, w: Walk, p: int)
    requires Start(c) >= 0
  {
    var start, n := StartOf(c.cfg, p, c.size), |c.xs|;
    var page := PageAt(c.xs, if start < 0 then 0 else start, c.size);
    && 0 < w.page <= MAX_PAGES
    && Start(c) <= start
    && Position(c.cfg, Get(w.clean, c.cfg.cursorParam)) == Some(p)
    && (c.cfg.kind.PageKind? ==> p == c.first + w.page - 1)
    && w.items == c.xs[MinI(Start(c), n)..MinI(start + c.size, n)]
    && w.items <= Rest(c)
    && (start + |page| >= n ==> w.items == Rest(c))
    && w.previous == Some(page) && (page != [] ==> page[0] in w.items)
    && w.shapeSet && w.field == (if c.shape.Bare? then "" else c.shape.field)
    && |page| == (if start >= n then 0 else MinI(c.size, n - start))
  }

  lemma FullPageStays(c: Case, w: Walk, p: int, count: nat)
    requires CaseOk(c) && SizesAgree(c) && TookPage(c, w, p) && RuleOf(c.cfg, c.shape).FullPages?
    requires w.previous.Some? && count == |w.previous.value|
    ensures StaysOnTrack(c, p, FullPageOrStop(w, c.cfg, c.pageSize, count))
  {
    hide Atoi, Itoa, Wrap, Distinct, OnTrack, StartOf, PageAt;
    var start, n := StartOf(c.cfg, p, c.size), |c.xs|;
    match FullPageStep(c.cfg, w.clean, c.pageSize, count) {
      case Some(step) =>
        assert start < n;
        AdvanceStays(c, w, p, step);
      case None =>
        assert start + count >= n;
    }
  }

  lemma MoreFlagStays(c: Case, w: Walk, p: int, count: nat, more: bool)
    requires CaseOk(c) && SizesAgree(c) && TookPage(c, w, p) && c.shape.Wrapped?
    requires w.previous.Some? && count == |w.previous.value| && more == (StartOf(c.cfg, p, c.size) + count < |c.xs|)
    ensures StaysOnTrack(c, p, FollowTurn(w, c.cfg, c.pageSize, count, "", Some(more)))
  {
    hide Atoi, Itoa, Wrap, Distinct, OnTrack, StartOf, PageAt, FullPageOrStop;
    if RuleOf(c.cfg, c.shape).FullPages? {
      FullPageStays(c, w, p, count);
    } else if RuleOf(c.cfg, c.shape).Flag? && more {
      var size := if c.pageSize > 0 || !c.cfg.kind.OffsetKind? then c.pageSize else if count > 0 then count else 1;
      var step := Step(c.cfg, w.clean, size);
      assert count == c.size;
      AdvanceStays(c, w, p, step.value);
    }
  }

  lemma TakingIn(c: Case, w: Walk, p: int, w': Walk)
    requires CaseOk(c) && OnTrack(c, w, p) && w.page < MAX_PAGES
    requires var page := PageAt(c.xs, StartOf(c.cfg, p, c.size), c.size);
      && w'.clean == w.clean && w'.page == w.page + 1 && w'.items == w.items + page && w'.previous == Some(page)
      && w'.shapeSet && w'.field == (if c.shape.Bare? then "" else c.shape.field)
    ensures TookPage(c, w', p)
  {
    hide StartOf, Position, Distinct, PageAt, Rest;
    PageTaken(c, w, p);
  }

  lemma HonestTurn(c: Case, w: Walk, p: int)
    requires CaseOk(c) && SizesAgree(c) && OnTrack(c, w, p) && w.page < MAX_PAGES
    ensures StaysOnTrack(c, p,
      TurnOn(Asked(w, c.cfg), c.cfg, c.pageSize, HonestReply(c.cfg, c.xs, c.size, c.shape, w.clean)))
  {
    hide Position, Distinct, StartOf, FullPageOrStop, FollowTurn, EqualFold, StaysOnTrack, Rest, PageAt, SizesAgree,
        TookPage;
    var start := StartOf(c.cfg, p, c.size);
    var page := PageAt(c.xs, start, c.size);
    var a := Asked(w, c.cfg);
    NewPageDiffers(c, w, p);
    match c.shape {
      case Bare =>
        var w2 := Keep(a.(shapeSet := true, fetched := a.fetched + [page]), page);
        TakingIn(c, w, p, w2);
        FullPageStays(c, w2, p, |page|);
      case Wrapped(field) =>
        var w1 := Opened(a, Collection(field, page));
        FoldsToItself(field);
        TakingIn(c, w, p, Keep(w1, page));
        MoreFlagStays(c, Keep(w1, page), p, |page|, start + |page| < |c.xs|);
    }
  }

  lemma FoldsToItself(field: string)
    ensures EqualFold(field, field)
  {
  }

  lemma {:induction false} HonestWalk(c: Case, w: Walk, p: int)
    requires CaseOk(c) && SizesAgree(c) && OnTrack(c, w, p) && w.page < MAX_PAGES
    ensures ReadInFull(WalkOn(HonestServer(c.cfg, c.xs, c.size, c.shape), c.cfg, c.pageSize, w), Rest(c))
    decreases MAX_PAGES - w.page
  {
    hide TurnOn, OnTrack, HonestReply, ReadInFull, SizesAgree, StartOf, Distinct;
    var t := TurnOn(Asked(w, c.cfg), c.cfg, c.pageSize, HonestReply(c.cfg, c.xs, c.size, c.shape, w.clean));
    HonestTurn(c, w, p);
    if t.GoOn? {
      var q :| q > p && OnTrack(c, t.walk, q);
      HonestWalk(c, t.walk, q);
    }
  }

  /** The case a call makes against an honest server. */
  function CaseOf(cfg: Config, params: Params, xs: seq<Item>, size: nat, shape: Shape, first: int): Case {
    Case(cfg, PageSize(cfg, Clean(cfg, params)), xs, size, shape, first)
  }

  /** Fetching every page from an honest server returns exactly the collection
      from the starting position, the last page included when it is full; only
      after 100 requests it is a prefix, marked as truncated. */
  lemma HonestServersAreReadInFull(cfg: Config, params: Params, xs: seq<Item>, size: nat, shape: Shape, first: int)
    requires CaseOk(CaseOf(cfg, params, xs, size, shape, first))
    requires SizesAgree(CaseOf(cfg, params, xs, size, shape, first))
    requires Position(cfg, Get(Begin(cfg, params).clean, cfg.cursorParam)) == Some(first)
    ensures ReadInFull(FetchAll(HonestServer(cfg, xs, size, shape), cfg, params),
                       Rest(CaseOf(cfg, params, xs, size, shape, first)))
  {
    hide Clean, WithLimit, PageSize, Position, WalkOn, HonestServer, SizesAgree, StartOf;
    HonestWalk(CaseOf(cfg, params, xs, size, shape, first), Begin(cfg, params), first);
  }

  // ----- and only when the page sizes agree -----

  lemma FollowKeepsItems(w: Walk, cfg: Config, pageSize: int, count: nat, token: string, more: Option<bool>)
    ensures After(FollowTurn(w, cfg, pageSize, count, token, more)).items == w.items
    ensures After(FullPageOrStop(w, cfg, pageSize, count)).items == w.items
  {
    hide Atoi, Itoa, Wrap, Position;
  }

  lemma ItemsGrowByTurn(w: Walk, cfg: Config, pageSize: int, reply: Reply)
    ensures w.items <= After(TurnOn(Asked(w, cfg), cfg, pageSize, reply)).items
  {
    hide FollowTurn, FullPageOrStop, EqualFold;
    var a := Asked(w, cfg);
    if reply.BareArray? {
      FollowKeepsItems(Keep(a.(shapeSet := true, fetched := a.fetched + [reply.items]), reply.items), cfg, pageSize,
                       |reply.items|, "", None);
    } else if reply.Object? && reply.collection.None? {
      FollowKeepsItems(a, cfg, pageSize, 0, "", reply.more);
    } else if reply.Object? {
      var c := reply.collection.value;
      var w1 := Opened(a, c);
      FollowKeepsItems(Keep(w1, c.items), cfg, pageSize, |c.items|,
                       if CursorPath(cfg) != "" then reply.token else "", reply.more);
    }
  }

  lemma {:induction false} ItemsGrow(server: Server, cfg: Config, pageSize: int, w: Walk)
    ensures w.items <= WalkOn(server, cfg, pageSize, w).walk.items
    decreases MAX_PAGES - w.page
  {
    hide TurnOn;
    var t := TurnOn(Asked(w, cfg), cfg, pageSize, server(w.page, w.clean));
    ItemsGrowByTurn(w, cfg, pageSize, server(w.page, w.clean));
    if t.GoOn? {
      ItemsGrow(server, cfg, pageSize, t.walk);
    }
  }

  function Following(c: Case, w: Walk): Turn {
    TurnOn(Asked(w, c.cfg), c.cfg, c.pageSize, HonestReply(c.cfg, c.xs, c.size, c.shape, w.clean))
  }

  /** How far the walk moves on from a page it has taken in, None when it stops. */
  function NextStep(c: Case, w: Walk, p: int, page: seq<Item>): Option<int> {
    match RuleOf(c.cfg, c.shape)
    case FullPages => FullPageStep(c.cfg, w.clean, c.pageSize, |page|)
    case Flag =>
      if StartOf(c.cfg, p, c.size) + |page| >= |c.xs| then None
      else if c.pageSize > 0 || !c.cfg.kind.OffsetKind? then Step(c.cfg, w.clean, c.pageSize)
      else Step(c.cfg, w.clean, if page != [] then |page| else 1)
    case Nothing => None
  }

  /** Going on asks `step` further; stopping claims that this was all. */
  ghost predicate GoesOn(c: Case, w: Walk, p: int, page: seq<Item>, step: Option<int>, t: Turn) {
    match step
    case None => t.Stop? && t.ending.Finished? && t.ending.truncated == None
    case Some(s) =>
      w.page + 1 < MAX_PAGES ==>
        && t.GoOn? && t.walk.previous == Some(page) && OnTrackShape(c, t.walk) && t.walk.page == w.page + 1
        && Get(t.walk.clean, c.cfg.cursorParam) == Itoa(Wrap(p + s))
  }

  predicate OnTrackShape(c: Case, w: Walk) {
    w.field == (if c.shape.Bare? || !w.shapeSet then "" else c.shape.field)
  }

  lemma TakenIsFollowed(c: Case, w: Walk, a: Walk, p: int, page: seq<Item>)
    requires CaseOk(c) && a.page == w.page + 1 && a.clean == w.clean && a.previous == Some(page) && OnTrackShape(c, a)
    requires Position(c.cfg, Get(w.clean, c.cfg.cursorParam)) == Some(p)
    requires NextStep(c, w, p, page).None? && RuleOf(c.cfg, c.shape).Flag?
        ==> StartOf(c.cfg, p, c.size) + |page| >= |c.xs|
    ensures c.shape.Bare? ==>
      GoesOn(c, w, p, page, NextStep(c, w, p, page), FullPageOrStop(a, c.cfg, c.pageSize, |page|))
    ensures c.shape.Wrapped? ==> GoesOn(c, w, p, page, NextStep(c, w, p, page),
      FollowTurn(a, c.cfg, c.pageSize, |page|, "", Some(StartOf(c.cfg, p, c.size) + |page| < |c.xs|)))
  {
    hide Atoi, Itoa, Wrap, Distinct, StartOf, Position;
  }

  /** A page that is not a repetition is always taken in. */
  lemma PageIsTaken(c: Case, w: Walk, p: int)
    requires CaseOk(c) && OnTrackShape(c, w)
    requires Position(c.cfg, Get(w.clean, c.cfg.cursorParam)) == Some(p) && StartOf(c.cfg, p, c.size) >= 0
    requires w.previous != Some(PageAt(c.xs, StartOf(c.cfg, p, c.size), c.size))
    requires c.cfg.kind.PageKind? || c.pageSize > 0 || RuleOf(c.cfg, c.shape).Nothing?
    ensures var page := PageAt(c.xs, StartOf(c.cfg, p, c.size), c.size);
      && After(Following(c, w)).items == w.items + page
      && GoesOn(c, w, p, page, NextStep(c, w, p, page), Following(c, w))
  {
    hide Atoi, Itoa, Wrap, Distinct, StartOf, PageAt, FullPageStep, EqualFold, Position, FollowTurn, FullPageOrStop,
        GoesOn;
    var page := PageAt(c.xs, StartOf(c.cfg, p, c.size), c.size);
    var a := Asked(w, c.cfg);
    StepsAreKnown(c, w, p, page);
    match c.shape {
      case Bare =>
        var w2 := Keep(a.(shapeSet := true, fetched := a.fetched + [page]), page);
        TakenIsFollowed(c, w, w2, p, page);
        FollowKeepsItems(w2, c.cfg, c.pageSize, |page|, "", None);
      case Wrapped(field) =>
        FoldsToItself(field);
        var w1 := Opened(a, Collection(field, page));
        var more := StartOf(c.cfg, p, c.size) + |page| < |c.xs|;
        TakenIsFollowed(c, w, Keep(w1, page), p, page);
        FollowKeepsItems(Keep(w1, page), c.cfg, c.pageSize, |page|, "", Some(more));
    }
  }

  lemma StepsAreKnown(c: Case, w: Walk, p: int, page: seq<Item>)
    requires CaseOk(c) && Position(c.cfg, Get(w.clean, c.cfg.cursorParam)) == Some(p)
    requires c.cfg.kind.PageKind? || c.pageSize > 0 || RuleOf(c.cfg, c.shape).Nothing?
    ensures NextStep(c, w, p, page).None? && RuleOf(c.cfg, c.shape).Flag?
        ==> StartOf(c.cfg, p, c.size) + |page| >= |c.xs|
  {
    hide Position, StartOf, Distinct;
  }

  /** One turn of the walk, and items are never taken back. */
  lemma Unrolled(c: Case, w: Walk)
    ensures var e := WalkOn(HonestServer(c.cfg, c.xs, c.size, c.shape), c.cfg, c.pageSize, w);
      match Following(c, w)
      case GoOn(w') =>
        e == WalkOn(HonestServer(c.cfg, c.xs, c.size, c.shape), c.cfg, c.pageSize, w') && w'.items <= e.walk.items
      case Stop(e') => e == e'
  {
    hide TurnOn, HonestReply;
    match Following(c, w)
    case GoOn(w') => ItemsGrow(HonestServer(c.cfg, c.xs, c.size, c.shape), c.cfg, c.pageSize, w');
    case Stop(_) =>
  }

  /** A walk about to send its first request. */
  ghost predicate AtFirst(c: Case, w: Walk)
    requires Start(c) >= 0
  {
    OnTrack(c, w, c.first) && w.page == 0 && w.previous == None && w.items == []
  }

  /** The server's pages are too short and only their size tells whether there is
      more, or nothing tells: the walk stops at the first page, unmarked. */
  lemma ShortPagesEndEarly(c: Case, w: Walk)
    requires CaseOk(c) && AtFirst(c, w) && |Rest(c)| > c.size
    requires if RuleOf(c.cfg, c.shape).FullPages? then c.size < c.pageSize else RuleOf(c.cfg, c.shape).Nothing?
    ensures !CompleteOrSaysSo(WalkOn(HonestServer(c.cfg, c.xs, c.size, c.shape), c.cfg, c.pageSize, w), Rest(c))
  {
    hide Following, WalkOn, HonestServer, Distinct, Atoi, Itoa, Wrap, Position;
    PageIsTaken(c, w, c.first);
    Unrolled(c, w);
  }

  lemma NotAPrefix(rest: seq<Item>, items: seq<Item>, p1: seq<Item>, p2: seq<Item>, k: nat)
    requires Distinct(rest) && p1 + p2 <= items && p2 != []
    requires k < |rest| && p2[0] == rest[k] && k != |p1|
    ensures !(items <= rest)
  {
    assert items[|p1|] == (p1 + p2)[|p1|] == p2[0];
  }

  /** With offsets, the second request asks at a place other than where the first
      page ended. */
  lemma SecondPageIsMisplaced(c: Case, w: Walk)
    requires CaseOk(c) && c.cfg.kind.OffsetKind? && AtFirst(c, w)
    requires 0 < c.pageSize != c.size && |Rest(c)| > c.pageSize
    requires if RuleOf(c.cfg, c.shape).FullPages? then c.pageSize < c.size
             else RuleOf(c.cfg, c.shape).Flag? && |Rest(c)| > c.size
    ensures var p1, p2 := PageAt(c.xs, c.first, c.size), PageAt(c.xs, c.first + c.pageSize, c.size);
      p1 + p2 <= WalkOn(HonestServer(c.cfg, c.xs, c.size, c.shape), c.cfg, c.pageSize, w).walk.items
  {
    hide Following, WalkOn, HonestServer, Distinct, PageAt, Position, Atoi, Itoa, Wrap;
    var p1 := PageAt(c.xs, c.first, c.size);
    PageIsTaken(c, w, c.first);
    FirstPage(c);
    FirstStep(c, w);
    var w1 := Following(c, w).walk;
    PositionAfter(c.cfg, c.first + c.pageSize);
    WrapSmall(c.first + c.pageSize);
    PageIsTaken(c, w1, c.first + c.pageSize);
    Unrolled(c, w);
    Unrolled(c, w1);
  }

  lemma FirstStep(c: Case, w: Walk)
    requires CaseOk(c) && c.cfg.kind.OffsetKind? && 0 < c.pageSize
    requires if RuleOf(c.cfg, c.shape).FullPages? then c.pageSize < c.size && |Rest(c)| > c.pageSize
             else RuleOf(c.cfg, c.shape).Flag? && |Rest(c)| > c.size
    requires Position(c.cfg, Get(w.clean, c.cfg.cursorParam)) == Some(c.first)
    ensures NextStep(c, w, c.first, PageAt(c.xs, c.first, c.size)) == Some(c.pageSize)
  {
    hide Distinct, Position;
  }

  /** The two pages differ, and the second does not start where the first ended. */
  lemma FirstPage(c: Case)
    requires CaseOk(c) && c.cfg.kind.OffsetKind? && 0 < c.pageSize != c.size && |Rest(c)| > c.pageSize
    requires |Rest(c)| > c.size || c.pageSize < c.size
    ensures var p1, p2 := PageAt(c.xs, c.first, c.size), PageAt(c.xs, c.first + c.pageSize, c.size);
      |p1| != c.pageSize && p2 != [] && p2[0] == Rest(c)[c.pageSize] && p1 != p2
  {
    var p1, p2 := PageAt(c.xs, c.first, c.size), PageAt(c.xs, c.first + c.pageSize, c.size);
    assert p1[0] == c.xs[c.first] && p2[0] == c.xs[c.first + c.pageSize];
  }

  lemma MisplacedPagesShow(c: Case, w: Walk)
    requires CaseOk(c) && c.cfg.kind.OffsetKind? && AtFirst(c, w)
    requires 0 < c.pageSize != c.size && |Rest(c)| > c.pageSize
    requires if RuleOf(c.cfg, c.shape).FullPages? then c.pageSize < c.size
             else RuleOf(c.cfg, c.shape).Flag? && |Rest(c)| > c.size
    ensures !CompleteOrSaysSo(WalkOn(HonestServer(c.cfg, c.xs, c.size, c.shape), c.cfg, c.pageSize, w), Rest(c))
  {
    hide WalkOn, HonestServer, OnTrack, PageAt, Position;
    SecondPageIsMisplaced(c, w);
    FirstPage(c);
    var items := WalkOn(HonestServer(c.cfg, c.xs, c.size, c.shape), c.cfg, c.pageSize, w).walk.items;
    var p1, p2 := PageAt(c.xs, c.first, c.size), PageAt(c.xs, c.first + c.pageSize, c.size);
    NotAPrefix(Rest(c), items, p1, p2, c.pageSize);
  }

  /** The has-more flag sends the walk past the end: the rest is skipped. */
  lemma SkippingPastTheEnd(c: Case, w: Walk)
    requires CaseOk(c) && c.cfg.kind.OffsetKind? && RuleOf(c.cfg, c.shape).Flag? && AtFirst(c, w)
    requires c.size < |Rest(c)| <= c.pageSize
    ensures !CompleteOrSaysSo(WalkOn(HonestServer(c.cfg, c.xs, c.size, c.shape), c.cfg, c.pageSize, w), Rest(c))
  {
    hide Following, WalkOn, HonestServer, Distinct, PageAt, Position, Atoi, Itoa, Wrap;
    PageIsTaken(c, w, c.first);
    FirstStep(c, w);
    EmptyPage(c);
    var w1 := Following(c, w).walk;
    PositionAfter(c.cfg, c.first + c.pageSize);
    WrapSmall(c.first + c.pageSize);
    if c.first + c.pageSize <= INT64_MAX {
      PageIsTaken(c, w1, c.first + c.pageSize);
    } else {
      OverflowIsRefused(c, w1);
    }
    Unrolled(c, w);
    Unrolled(c, w1);
  }

  /** A position that overflowed is negative, and no server serves it. */
  lemma OverflowIsRefused(c: Case, w: Walk)
    requires CaseOk(c) && c.cfg.kind.OffsetKind? && c.first + c.pageSize > INT64_MAX
    requires Position(c.cfg, Get(w.clean, c.cfg.cursorParam)) == Some(Wrap(c.first + c.pageSize))
    ensures Following(c, w).Stop? && Following(c, w).ending.Refused?
  {
    hide Position, Distinct, PageAt, ObjectTurn, BareTurn;
    assert Wrap(c.first + c.pageSize) == c.first + c.pageSize - 0x1_0000_0000_0000_0000;
  }

  lemma EmptyPage(c: Case)
    requires CaseOk(c) && c.cfg.kind.OffsetKind? && c.size < |Rest(c)| <= c.pageSize
    ensures |PageAt(c.xs, c.first, c.size)| == c.size && PageAt(c.xs, c.first + c.pageSize, c.size) == []
  {
  }

  /** The collection is returned in full, or as a marked prefix, if and only if
      the page sizes agree, for offsets and page numbers, whatever tells that there
      is more; and when they agree only the page limit cuts it short. */
  lemma CompleteExactlyWhenSizesAgree(cfg: Config, params: Params, xs: seq<Item>, size: nat, shape: Shape, first: int)
    requires CaseOk(CaseOf(cfg, params, xs, size, shape, first))
    requires Position(cfg, Get(Begin(cfg, params).clean, cfg.cursorParam)) == Some(first)
    ensures var c := CaseOf(cfg, params, xs, size, shape, first);
      var e := FetchAll(HonestServer(cfg, xs, size, shape), cfg, params);
      && (CompleteOrSaysSo(e, Rest(c)) <==> SizesAgree(c))
      && (ReadInFull(e, Rest(c)) <==> SizesAgree(c))
  {
    hide Clean, WithLimit, PageSize, Position, WalkOn, HonestServer, Distinct, StartOf;
    var c, w := CaseOf(cfg, params, xs, size, shape, first), Begin(cfg, params);
    if SizesAgree(c) {
      HonestServersAreReadInFull(cfg, params, xs, size, shape, first);
    } else if RuleOf(c.cfg, c.shape).Nothing? || (RuleOf(c.cfg, c.shape).FullPages? && c.size < c.pageSize) {
      ShortPagesEndEarly(c, w);
    } else if |Rest(c)| <= c.pageSize {
      SkippingPastTheEnd(c, w);
    } else {
      MisplacedPagesShow(c, w);
    }
  }

  // ----- steps of three over pages of two -----

  const STEPS_OF_THREE: Config := Config("offset", OffsetKind, "", 3, "", "more")

  /** Five items by offsets: the third is skipped, and nothing says so. */
  lemma FourOfFive(xs: seq<Item>, field: string)
    requires |xs| == 5 && Distinct(xs)
    ensures var c := CaseOf(STEPS_OF_THREE, map[], xs, 2, Wrapped(field), 0);
      var e := FetchAll(HonestServer(c.cfg, xs, 2, c.shape), c.cfg, map[]);
      && CaseOk(c) && !SizesAgree(c)
      && e.Finished? && e.truncated == None && e.walk.items == [xs[0], xs[1], xs[3], xs[4]]
  {
    hide WalkOn, HonestServer, Following, Position, Atoi, Itoa, Wrap, OnTrack;
    var c, w := CaseOf(STEPS_OF_THREE, map[], xs, 2, Wrapped(field), 0), Begin(STEPS_OF_THREE, map[]);
    NoCursorIsFirst(c.cfg);
    assert PageAt(xs, 0, 2) == [xs[0], xs[1]] && PageAt(xs, 3, 2) == [xs[3], xs[4]];
    PageIsTaken(c, w, 0);
    var w1 := Following(c, w).walk;
    PositionAfter(c.cfg, 3);
    WrapSmall(3);
    PageIsTaken(c, w1, 3);
    Unrolled(c, w);
    Unrolled(c, w1);
  }

  lemma NoCursorIsFirst(cfg: Config)
    ensures Position(cfg, "") == Some(FirstPosition(cfg))
  {
  }
}
