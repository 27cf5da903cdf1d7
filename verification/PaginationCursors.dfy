/** Completeness against a server that hands out an opaque cursor for each next
    page. */
module PaginationCursors {
  import opened Wrappers
  import opened Pagination
  import opened PaginationRuns
  import Text

  /** The pages from the first request on, and the cursor each is asked for by;
      the first cursor is the caller's, "" when there is none. */
  datatype Chain = Chain(cfg: Config, field: string, pages: seq<seq<Item>>, cursors: seq<string>)

  ghost predicate ChainOk(c: Chain) {
    && c.cfg.cursorParam != "" && CursorPath(c.cfg) != ""
    && |c.cursors| == |c.pages| > 0 && Distinct(c.cursors)
    && (forall k :: 0 < k < |c.cursors| ==> c.cursors[k] != "")
  }

  /** The paginator takes page `k` for the one before again: offsets distrust any
      repetition, the others only one that brings no cursor. */
  predicate LooksRepeated(c: Chain, k: nat)
    requires k < |c.pages|
  {
    k > 0 && c.pages[k] == c.pages[k - 1] && (c.cfg.kind.OffsetKind? || k == |c.pages| - 1)
  }

  /** The first such page at or after `k` that the page limit lets the walk ask for;
      |pages| when there is none. */
  function FirstRepeated(c: Chain, k: nat): (r: nat)
    requires k <= |c.pages|
    ensures k <= r <= |c.pages|
    ensures r < |c.pages| ==> r < MAX_PAGES && LooksRepeated(c, r)
    ensures forall j :: k <= j < r && j < MAX_PAGES ==> !LooksRepeated(c, j)
    decreases |c.pages| - k
  {
    if k == |c.pages| || k >= MAX_PAGES then |c.pages|
    else if LooksRepeated(c, k) then k
    else FirstRepeated(c, k + 1)
  }

  /** All pages before page `r`, and a mark. */
  ghost predicate StoppedAt(e: Ending, pages: seq<seq<Item>>, r: nat)
    requires r <= |pages|
  {
    e.Finished? && e.truncated == Some(RepeatedPage) && e.walk.page == r + 1 && e.walk.items == Flatten(pages[..r])
  }

  function ChainReply(c: Chain, params: Params): Reply {
    var k := Text.IndexOf(c.cursors, Get(params, c.cfg.cursorParam));
    if k >= |c.pages| then TransportError("bad cursor")
    else
      var more := k + 1 < |c.pages| && k + 1 < |c.cursors|;
      Object(Some(Collection(c.field, c.pages[k])), if more then c.cursors[k + 1] else "", Some(more))
  }

  function ChainServer(c: Chain): Server {
    (call: nat, params: Params) => ChainReply(c, params)
  }

  lemma {:induction false} IndexOfDistinct(cursors: seq<string>, k: nat)
    requires Distinct(cursors) && k < |cursors|
    ensures Text.IndexOf(cursors, cursors[k]) == k
  {
    if k > 0 {
      assert cursors[0] != cursors[k];
      IndexOfDistinct(cursors[1..], k - 1);
    }
  }

  /** Before page `k` is asked for, the pages before it have been collected. */
  ghost predicate OnChain(c: Chain, w: Walk, k: nat) {
    && k < |c.pages| && |c.cursors| == |c.pages| && w.page == k
    && Get(w.clean, c.cfg.cursorParam) == c.cursors[k]
    && w.items == Flatten(c.pages[..k])
    && w.previous == LastPage(c.pages[..k])
    && (forall x :: x in w.seen ==> x in c.cursors[..k + 1])
    && w.field == (if w.shapeSet then c.field else "")
  }

  /** Everything, one request a page, or the first hundred pages and a mark. */
  ghost predicate WalkedThrough(e: Ending, pages: seq<seq<Item>>) {
    && e.Finished?
    && ((e.truncated == None && e.walk.page == |pages| && e.walk.items == Flatten(pages))
        || (e.truncated == Some(MaxPages) && e.walk.page == MAX_PAGES && e.walk.items <= Flatten(pages)))
  }

  /** The same, but a single page of an endpoint that declares no cursor is
      marked as perhaps not everything. */
  ghost predicate ReadByCursor(e: Ending, pages: seq<seq<Item>>) {
    || WalkedThrough(e, pages)
    || (e.Finished? && e.truncated == Some(MissingSignal) && |pages| == 1 && e.walk.items == Flatten(pages))
  }

  lemma PageTaken(c: Chain, w: Walk, k: nat, w': Walk)
    requires OnChain(c, w, k) && w'.items == w.items + c.pages[k]
    ensures w'.items == Flatten(c.pages[..k + 1]) && LastPage(c.pages[..k + 1]) == Some(c.pages[k])
    ensures w'.items <= Flatten(c.pages)
    ensures k + 1 == |c.pages| ==> w'.items == Flatten(c.pages)
  {
    hide Flatten;
    assert c.pages[..k + 1] == c.pages[..k] + [c.pages[k]];
    FlattenOne(c.pages[..k], c.pages[k]);
    FlattenPrefix(c.pages, k + 1);
    assert k + 1 == |c.pages| ==> c.pages[..k + 1] == c.pages;
  }

  lemma CursorIsNew(c: Chain, w: Walk, k: nat)
    requires ChainOk(c) && OnChain(c, w, k) && k + 1 < |c.pages|
    ensures c.cursors[k + 1] !in w.seen && c.cursors[k + 1] != "" && c.cursors[k + 1] in c.cursors[..k + 2]
    ensures forall x :: x in w.seen ==> x in c.cursors[..k + 2]
  {
    forall x | x in w.seen ensures x in c.cursors[..k + 2] && x != c.cursors[k + 1] {
      var i :| 0 <= i < k + 1 && c.cursors[i] == x;
      assert c.cursors[..k + 2][i] == x;
    }
    assert c.cursors[..k + 2][k + 1] == c.cursors[k + 1];
  }

  lemma PreviousPage(c: Chain, w: Walk, k: nat)
    requires OnChain(c, w, k)
    ensures w.previous == if k > 0 then Some(c.pages[k - 1]) else None
  {
  }

  /** The collection taken in from page `k`. */
  function Taken(c: Chain, w: Walk, k: nat): Walk
    requires k < |c.pages|
  {
    var a := Asked(w, c.cfg);
    Keep(Opened(a, Collection(c.field, c.pages[k])), c.pages[k])
  }

  lemma FollowChain(c: Chain, pageSize: int, w: Walk, k: nat)
    requires ChainOk(c) && OnChain(c, w, k) && w.page < MAX_PAGES
    ensures var more := k + 1 < |c.pages|;
      var t := FollowTurn(Taken(c, w, k), c.cfg, pageSize, |c.pages[k]|,
                          if more then c.cursors[k + 1] else "", Some(more));
      match t
      case GoOn(w') => OnChain(c, w', k + 1)
      case Stop(e) => WalkedThrough(e, c.pages) && (k + 1 == |c.pages| || k + 1 >= MAX_PAGES)
  {
    hide Flatten, LastPage, FullPageStep, Step, AdvanceBy;
    PageTaken(c, w, k, Taken(c, w, k));
    if k + 1 < |c.pages| {
      CursorIsNew(c, w, k);
    } else {
      NoFullPages(c.cfg, w.clean, pageSize, |c.pages[k]|);
    }
  }

  /** One page of the chain: a repetition, on to the next, or the end. */
  lemma ChainTurn(c: Chain, pageSize: int, w: Walk, k: nat)
    requires ChainOk(c) && OnChain(c, w, k) && w.page < MAX_PAGES
    ensures var t := TurnOn(Asked(w, c.cfg), c.cfg, pageSize, ChainReply(c, w.clean));
      match t
      case GoOn(w') => !LooksRepeated(c, k) && OnChain(c, w', k + 1)
      case Stop(e) =>
        if LooksRepeated(c, k) then StoppedAt(e, c.pages, k)
        else WalkedThrough(e, c.pages) && (k + 1 == |c.pages| || k + 1 >= MAX_PAGES)
  {
    hide Flatten, LastPage, EqualFold, FollowTurn, WalkedThrough;
    IndexOfDistinct(c.cursors, k);
    PreviousPage(c, w, k);
    SameField(c.field);
    FollowChain(c, pageSize, w, k);
  }

  lemma SameField(field: string)
    ensures EqualFold(field, field)
  {
  }

  lemma NoFullPages(cfg: Config, clean: Params, pageSize: int, count: nat)
    requires CursorPath(cfg) != ""
    ensures cfg.nextCursorPath == "" ==> FullPageStep(cfg, clean, pageSize, count) == None
  {
  }

  lemma {:induction false} ChainWalk(c: Chain, pageSize: int, w: Walk, k: nat)
    requires ChainOk(c) && OnChain(c, w, k) && w.page < MAX_PAGES
    ensures var e, r := WalkOn(ChainServer(c), c.cfg, pageSize, w), FirstRepeated(c, k);
      if r < |c.pages| then StoppedAt(e, c.pages, r) else WalkedThrough(e, c.pages)
    decreases MAX_PAGES - w.page
  {
    hide TurnOn, ChainReply, ChainOk, OnChain, WalkedThrough, StoppedAt, LooksRepeated;
    ChainTurn(c, pageSize, w, k);
    AtPage(c, w, k);
    var t := TurnOn(Asked(w, c.cfg), c.cfg, pageSize, ChainReply(c, w.clean));
    if t.GoOn? {
      ChainWalk(c, pageSize, t.walk, k + 1);
    }
  }

  lemma AtPage(c: Chain, w: Walk, k: nat)
    requires OnChain(c, w, k)
    ensures w.page == k < |c.pages|
  {
  }

  /** Following cursors returns every page, in order, of a server that hands out
      a fresh cursor for each, equal neighbours included; only after 100 requests it
      returns a prefix, marked as truncated.  The exception is a page taken for the
      one before again, the last one or, with offsets, any: the walk stops there,
      without it and marked. */
  lemma CursorsAreReadInFull(c: Chain, params: Params)
    requires ChainOk(c) && Get(Begin(c.cfg, params).clean, c.cfg.cursorParam) == c.cursors[0]
    ensures var e, r := FetchAll(ChainServer(c), c.cfg, params), FirstRepeated(c, 0);
      if r < |c.pages| then StoppedAt(e, c.pages, r) else ReadByCursor(e, c.pages)
  {
    hide Clean, WithLimit, PageSize, WalkOn, ChainServer, Flatten;
    var w := Begin(c.cfg, params);
    assert OnChain(c, w, 0) by {
      Nothing(c);
      assert c.cursors[..1] == [c.cursors[0]];
    }
    ChainWalk(c, PageSize(c.cfg, Clean(c.cfg, params)), w, 0);
  }

  lemma Nothing(c: Chain)
    ensures Flatten(c.pages[..0]) == [] && LastPage(c.pages[..0]) == None
  {
  }
}
