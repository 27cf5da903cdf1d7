/** What fetching every page guarantees against any server whatever. */
module PaginationRuns {
  import opened Wrappers
  import opened Decimal
  import opened Pagination

  // ----- any server: what was fetched is what is returned -----

  function Flatten(pages: seq<seq<Item>>): seq<Item> {
    if pages == [] then [] else Flatten(pages[..|pages| - 1]) + pages[|pages| - 1]
  }

  function LastPage(pages: seq<seq<Item>>): Option<seq<Item>> {
    if pages == [] then None else Some(pages[|pages| - 1])
  }

  ghost predicate WalkOk(w: Walk) {
    && w.page <= MAX_PAGES && |w.sent| == w.page && |w.steps| == w.page && |w.fetched| <= w.page
    && w.items == Flatten(w.fetched)
    && w.previous == LastPage(w.fetched)
  }

  /** At most 100 requests; the items of all fetched pages in order, without the
      last page when that repeated the one before it. */
  ghost predicate EndingOk(e: Ending) {
    && |e.walk.sent| <= MAX_PAGES
    && (e.Finished? ==>
          var w, n := e.walk, |e.walk.fetched|;
          && |w.sent| == w.page && n <= w.page
          && if e.truncated == Some(RepeatedPage)
             then n >= 2 && w.fetched[n - 1] == w.fetched[n - 2] && w.items == Flatten(w.fetched[..n - 1])
             else w.items == Flatten(w.fetched))
  }

  lemma FlattenOne(pages: seq<seq<Item>>, page: seq<Item>)
    ensures Flatten(pages + [page]) == Flatten(pages) + page
  {
    assert (pages + [page])[..|pages|] == pages;
  }

  lemma {:induction false} FlattenPrefix(pages: seq<seq<Item>>, k: nat)
    requires k <= |pages|
    ensures Flatten(pages[..k]) <= Flatten(pages)
    decreases |pages|
  {
    if k < |pages| {
      var init := pages[..|pages| - 1];
      assert init[..k] == pages[..k];
      FlattenPrefix(init, k);
    } else {
      assert pages[..k] == pages;
    }
  }

  /** The state between two turns: asked, but the reply not yet taken in. */
  ghost predicate AskedOk(w: Walk) {
    && 0 < w.page <= MAX_PAGES && |w.sent| == w.page && |w.steps| == w.page - 1 && |w.fetched| <= w.page
    && w.items == Flatten(w.fetched)
    && w.previous == LastPage(w.fetched)
  }

  ghost predicate TurnOk(t: Turn) {
    match t
    case GoOn(w) => WalkOk(w)
    case Stop(e) => EndingOk(e)
  }

  lemma FollowKeeps(w: Walk, cfg: Config, pageSize: int, count: nat, token: string, more: Option<bool>)
    requires AskedOk(w)
    ensures TurnOk(FollowTurn(w, cfg, pageSize, count, token, more))
    ensures TurnOk(FullPageOrStop(w, cfg, pageSize, count))
  {
    hide Flatten, Atoi, Itoa, Wrap;
  }

  /** A collection taken in, or refused because it repeats the one before. */
  lemma TakingKeeps(w: Walk, cfg: Config, w1: Walk, items: seq<Item>)
    requires WalkOk(w) && w.page < MAX_PAGES
    requires w1 == Asked(w, cfg).(shapeSet := true, field := w1.field, fetched := w.fetched + [items])
    ensures AskedOk(Keep(w1, items))
    ensures w.previous == Some(items) ==> EndingOk(Finished(w1, Some(RepeatedPage)))
  {
    hide Flatten;
    FlattenOne(w.fetched, items);
    assert (w.fetched + [items])[..|w.fetched|] == w.fetched;
  }

  lemma NothingTaken(w: Walk, cfg: Config)
    requires WalkOk(w) && w.page < MAX_PAGES
    ensures AskedOk(Asked(w, cfg)) && EndingOk(Finished(Asked(w, cfg), None))
    ensures forall text :: EndingOk(Refused(Asked(w, cfg), text))
    ensures EndingOk(Preview(Asked(w, cfg)))
  {
  }

  lemma TurnKeeps(w: Walk, cfg: Config, pageSize: int, reply: Reply)
    requires WalkOk(w) && w.page < MAX_PAGES
    ensures TurnOk(TurnOn(Asked(w, cfg), cfg, pageSize, reply))
  {
    hide WalkOk, AskedOk, EndingOk, EqualFold, FollowTurn, FullPageOrStop;
    var a := Asked(w, cfg);
    NothingTaken(w, cfg);
    if reply.BareArray? {
      var w1 := a.(shapeSet := true, fetched := a.fetched + [reply.items]);
      TakingKeeps(w, cfg, w1, reply.items);
      FollowKeeps(Keep(w1, reply.items), cfg, pageSize, |reply.items|, "", None);
    } else if reply.Object? && reply.collection.None? {
      FollowKeeps(a, cfg, pageSize, 0, "", reply.more);
    } else if reply.Object? {
      var c := reply.collection.value;
      var w1 := Opened(a, c);
      TakingKeeps(w, cfg, w1, c.items);
      FollowKeeps(Keep(w1, c.items), cfg, pageSize, |c.items|,
                  if CursorPath(cfg) != "" then reply.token else "", reply.more);
    }
  }

  lemma {:induction false} WalkKeeps(server: Server, cfg: Config, pageSize: int, w: Walk)
    requires WalkOk(w) && w.page < MAX_PAGES
    ensures EndingOk(WalkOn(server, cfg, pageSize, w))
    decreases MAX_PAGES - w.page
  {
    hide TurnOn, EndingOk, WalkOk;
    var turn := TurnOn(Asked(w, cfg), cfg, pageSize, server(w.page, w.clean));
    TurnKeeps(w, cfg, pageSize, server(w.page, w.clean));
    if turn.GoOn? {
      WalkKeeps(server, cfg, pageSize, turn.walk);
    }
  }

  /** Against any server: at most 100 requests, and what is returned is the items
      of the fetched pages in order, less a final page that repeats its
      predecessor. */
  lemma ReturnsWhatWasFetched(server: Server, cfg: Config, params: Params)
    ensures EndingOk(FetchAll(server, cfg, params))
  {
    hide WalkOn, Clean, WithLimit, PageSize;
    WalkKeeps(server, cfg, PageSize(cfg, Clean(cfg, params)), Begin(cfg, params));
  }

  // ----- any server: no cursor twice -----

  /** The cursor values sent so far and the one about to be sent. */
  function Cursors(w: Walk, cfg: Config): seq<string> {
    w.sent + [Get(w.clean, cfg.cursorParam)]
  }

  ghost predicate Distinct(s: seq<string>) {
    forall i, j :: 0 <= i < j < |s| ==> s[i] != s[j]
  }

  /** Distinct, all known to `seen`, and only the first may be absent. */
  ghost predicate CursorsOk(cursors: seq<string>, seen: set<string>) {
    && Distinct(cursors)
    && (forall x :: x in cursors && x != "" ==> x in seen)
    && (forall i :: 0 < i < |cursors| ==> cursors[i] != "")
  }

  lemma CursorFollows(w: Walk, cfg: Config, pageSize: int, count: nat, token: string, more: Option<bool>)
    requires cfg.kind.CursorKind? && CursorsOk(w.sent, w.seen)
    ensures var t := FollowTurn(w, cfg, pageSize, count, token, more);
      && (t.GoOn? ==> CursorsOk(Cursors(t.walk, cfg), t.walk.seen))
      && (t.Stop? ==> t.ending.walk.sent == w.sent)
    ensures FullPageOrStop(w, cfg, pageSize, count) == Stop(Finished(w, None))
  {
    hide Atoi, Itoa, Wrap;
  }

  lemma CursorTurn(w: Walk, cfg: Config, pageSize: int, reply: Reply)
    requires cfg.kind.CursorKind? && CursorsOk(Cursors(w, cfg), w.seen)
    ensures var t := TurnOn(Asked(w, cfg), cfg, pageSize, reply);
      && (t.GoOn? ==> CursorsOk(Cursors(t.walk, cfg), t.walk.seen))
      && (t.Stop? ==> t.ending.walk.sent == Cursors(w, cfg))
  {
    hide Atoi, Itoa, Wrap, FollowTurn, FullPageOrStop, EqualFold, CursorsOk;
    var a := Asked(w, cfg);
    if reply.BareArray? {
      var w1 := a.(shapeSet := true, fetched := a.fetched + [reply.items]);
      CursorFollows(Keep(w1, reply.items), cfg, pageSize, |reply.items|, "", None);
    } else if reply.Object? && reply.collection.None? {
      CursorFollows(a, cfg, pageSize, 0, "", reply.more);
    } else if reply.Object? {
      var c := reply.collection.value;
      CursorFollows(Keep(Opened(a, c), c.items), cfg, pageSize, |c.items|,
                    if CursorPath(cfg) != "" then reply.token else "", reply.more);
    }
  }

  lemma {:induction false} CursorWalk(server: Server, cfg: Config, pageSize: int, w: Walk)
    requires cfg.kind.CursorKind? && CursorsOk(Cursors(w, cfg), w.seen)
    ensures Distinct(WalkOn(server, cfg, pageSize, w).walk.sent)
    decreases MAX_PAGES - w.page
  {
    hide TurnOn, Cursors;
    var turn := TurnOn(Asked(w, cfg), cfg, pageSize, server(w.page, w.clean));
    CursorTurn(w, cfg, pageSize, server(w.page, w.clean));
    if turn.GoOn? {
      CursorWalk(server, cfg, pageSize, turn.walk);
    }
  }

  /** With opaque cursors no cursor value is ever sent twice. */
  lemma NoCursorIsSentTwice(server: Server, cfg: Config, params: Params)
    requires cfg.kind.CursorKind?
    ensures Distinct(FetchAll(server, cfg, params).walk.sent)
  {
    hide WalkOn, Clean, WithLimit, PageSize;
    CursorWalk(server, cfg, PageSize(cfg, Clean(cfg, params)), Begin(cfg, params));
  }

  // ----- any server: positions only move forward -----

  /** The list a reply holds, if it holds one. */
  function ListIn(reply: Reply): seq<seq<Item>> {
    match reply
    case BareArray(items) => [items]
    case Object(Some(c), _, _) => [c.items]
    case _ => []
  }

  function CountIn(reply: Reply): nat {
    if ListIn(reply) == [] then 0 else |ListIn(reply)[0]|
  }

  /** Each position is the one before plus a positive step, in 64-bit arithmetic. */
  ghost predicate PositionsOk(cfg: Config, cursors: seq<string>, steps: seq<int>) {
    && |cursors| >= 1 && |steps| == |cursors| - 1
    && forall k :: 0 <= k < |steps| ==>
         && steps[k] >= 1
         && Position(cfg, cursors[k]).Some?
         && Position(cfg, cursors[k + 1]) == Some(Wrap(Position(cfg, cursors[k]).value + steps[k]))
  }

  lemma PositionAfter(cfg: Config, n: int)
    ensures Position(cfg, Itoa(Wrap(n))) == Some(Wrap(n))
  {
    hide Atoi, Itoa, Wrap;
    AtoiReadsItoa(Wrap(n));
    ItoaNotEmpty(Wrap(n));
  }

  /** How far the next request moves on after a page of `count` items. */
  function StepOf(cfg: Config, pageSize: int, count: nat): int {
    if cfg.kind.PageKind? then 1 else if pageSize > 0 then pageSize else if count > 0 then count else 1
  }

  lemma FollowMoves(w: Walk, cfg: Config, pageSize: int, count: nat, more: Option<bool>)
    requires !cfg.kind.CursorKind?
    ensures MovesOn(w, cfg, StepOf(cfg, pageSize, count), FollowTurn(w, cfg, pageSize, count, "", more))
    ensures MovesOn(w, cfg, StepOf(cfg, pageSize, count), FullPageOrStop(w, cfg, pageSize, count))
  {
    hide Atoi, Itoa, Wrap, Position;
  }

  /** Going on means asking at the position one step further. */
  ghost predicate MovesOn(w: Walk, cfg: Config, step: int, t: Turn) {
    var here := Position(cfg, Get(w.clean, cfg.cursorParam));
    match t
    case GoOn(w') =>
      && here.Some? && w'.sent == w.sent && w'.steps == w.steps + [step] && step >= 1
      && Get(w'.clean, cfg.cursorParam) == Itoa(Wrap(here.value + step))
    case Stop(e) => e.walk.sent == w.sent && e.walk.steps == w.steps
  }

  /** Moving on from the last position sent extends the list of positions. */
  lemma PositionsExtend(w: Walk, cfg: Config, taken: Walk, step: int, t: Turn)
    requires PositionsOk(cfg, Cursors(w, cfg), w.steps)
    requires taken.sent == Cursors(w, cfg) && taken.steps == w.steps && taken.clean == w.clean
    requires MovesOn(taken, cfg, step, t)
    ensures t.GoOn? ==> PositionsOk(cfg, Cursors(t.walk, cfg), t.walk.steps) && t.walk.steps == w.steps + [step]
    ensures t.Stop? ==> t.ending.walk.sent == Cursors(w, cfg) && t.ending.walk.steps == w.steps
  {
    hide Atoi, Itoa, Wrap, Position;
    if t.GoOn? {
      var here := Position(cfg, Get(w.clean, cfg.cursorParam));
      PositionAfter(cfg, here.value + step);
      assert Cursors(t.walk, cfg)[..|w.sent| + 1] == Cursors(w, cfg);
    }
  }

  lemma PositionTurn(w: Walk, cfg: Config, pageSize: int, reply: Reply)
    requires !cfg.kind.CursorKind? && cfg.nextCursorPath == ""
    requires PositionsOk(cfg, Cursors(w, cfg), w.steps)
    ensures var t := TurnOn(Asked(w, cfg), cfg, pageSize, reply);
      && (t.GoOn? ==>
            && PositionsOk(cfg, Cursors(t.walk, cfg), t.walk.steps)
            && t.walk.steps == w.steps + [StepOf(cfg, pageSize, CountIn(reply))])
      && (t.Stop? ==> t.ending.walk.sent == Cursors(w, cfg) && t.ending.walk.steps == w.steps)
  {
    hide Atoi, Itoa, Wrap, EqualFold, Position, FollowTurn, FullPageOrStop, PositionsOk;
    var a := Asked(w, cfg);
    if reply.BareArray? {
      var taken := Keep(a.(shapeSet := true, fetched := w.fetched + [reply.items]), reply.items);
      FollowMoves(taken, cfg, pageSize, |reply.items|, None);
      PositionsExtend(w, cfg, taken, StepOf(cfg, pageSize, |reply.items|), TurnOn(a, cfg, pageSize, reply));
    } else if reply.Object? && reply.collection.None? {
      FollowMoves(a, cfg, pageSize, 0, reply.more);
      PositionsExtend(w, cfg, a, StepOf(cfg, pageSize, 0), TurnOn(a, cfg, pageSize, reply));
    } else if reply.Object? {
      var c := reply.collection.value;
      var w1 := Opened(a, c);
      FollowMoves(Keep(w1, c.items), cfg, pageSize, |c.items|, reply.more);
      PositionsExtend(w, cfg, Keep(w1, c.items), StepOf(cfg, pageSize, |c.items|), TurnOn(a, cfg, pageSize, reply));
    }
  }

  // ----- any server: what was fetched is what the server sent -----

  /** The parameters of request `k`: the cleaned ones with the k-th cursor value. */
  function RequestAt(cfg: Config, clean: Params, sent: seq<string>, k: nat): Params
    requires k < |sent|
  {
    if k == 0 then clean else clean[cfg.cursorParam := sent[k]]
  }

  /** What the server answered to each request. */
  function Replies(server: Server, cfg: Config, clean: Params, sent: seq<string>): seq<Reply> {
    seq(|sent|, k requires 0 <= k < |sent| => server(k, RequestAt(cfg, clean, sent, k)))
  }

  function Lists(replies: seq<Reply>): seq<seq<Item>> {
    if replies == [] then [] else Lists(replies[..|replies| - 1]) + ListIn(replies[|replies| - 1])
  }

  /** The walk a turn leaves. */
  function After(t: Turn): Walk {
    match t case GoOn(w) => w case Stop(e) => e.walk
  }

  /** Is this reply's list the collection the walk is collecting? */
  predicate SameCollection(w: Walk, reply: Reply) {
    match reply
    case BareArray(_) => w.field == ""
    case Object(Some(c), _, _) => (c.field == "" <==> w.field == "") && EqualFold(c.field, w.field)
    case _ => true
  }

  ghost predicate OneCollection(w: Walk, replies: seq<Reply>) {
    forall k :: 0 <= k < |replies| && ListIn(replies[k]) != [] ==> w.shapeSet && SameCollection(w, replies[k])
  }

  /** Moving on changes nothing that was taken in, and only the cursor parameter. */
  ghost predicate MovesOnly(w: Walk, cfg: Config, t: Turn) {
    && After(t).items == w.items && After(t).fetched == w.fetched && After(t).sent == w.sent
    && After(t).field == w.field && After(t).shapeSet == w.shapeSet
    && match t
       case GoOn(w') => w'.clean == w.clean[cfg.cursorParam := Get(w'.clean, cfg.cursorParam)]
       case Stop(e) => e.Finished? && e.truncated != Some(RepeatedPage)
  }

  lemma FollowMovesOnly(w: Walk, cfg: Config, pageSize: int, count: nat, token: string, more: Option<bool>)
    ensures MovesOnly(w, cfg, FollowTurn(w, cfg, pageSize, count, token, more))
    ensures MovesOnly(w, cfg, FullPageOrStop(w, cfg, pageSize, count))
  {
    hide Atoi, Itoa, Wrap, Position, FullPageStep, Step;
  }

  /** The outcome of a turn over one reply: its list is taken in whole, or dropped
      because it repeats the page before, or refused because it is another
      collection; and going on changes only the cursor. */
  ghost predicate TakesIn(w: Walk, cfg: Config, reply: Reply, t: Turn) {
    var a, list := After(t), ListIn(reply);
    && a.sent == w.sent + [Get(w.clean, cfg.cursorParam)]
    && (t.GoOn? ==> a.clean == w.clean[cfg.cursorParam := Get(a.clean, cfg.cursorParam)])
    && (t.Stop? && t.ending.Refused? <==>
          reply.TransportError? || (list != [] && w.shapeSet && !SameCollection(w, reply)))
    && (!a.shapeSet ==> a.field == "")
    && (t.Stop? && t.ending.Refused? ==>
          a.fetched == w.fetched && a.items == w.items && a.shapeSet == w.shapeSet && a.field == w.field)
    && (t.Stop? && t.ending.Preview? ==> list == [])
    && (!(t.Stop? && t.ending.Refused?) ==>
          && a.fetched == w.fetched + list
          && (list == [] ==> a.items == w.items && a.shapeSet == w.shapeSet && a.field == w.field)
          && (list != [] ==> a.shapeSet && SameCollection(a, reply) && (w.shapeSet ==> a.field == w.field))
          && (list != [] ==>
                if t.Stop? && t.ending.Finished? && t.ending.truncated == Some(RepeatedPage)
                then a.items == w.items && w.previous == Some(list[0])
                else a.items == w.items + list[0]))
  }

  lemma TurnTakesIn(w: Walk, cfg: Config, pageSize: int, reply: Reply)
    requires !w.shapeSet ==> w.field == ""
    ensures TakesIn(w, cfg, reply, TurnOn(Asked(w, cfg), cfg, pageSize, reply))
  {
    hide FollowTurn, FullPageOrStop, EqualFold;
    var a := Asked(w, cfg);
    if reply.BareArray? {
      var taken := Keep(a.(shapeSet := true, fetched := a.fetched + [reply.items]), reply.items);
      SameFold("");
      FollowMovesOnly(taken, cfg, pageSize, |reply.items|, "", None);
    } else if reply.Object? && reply.collection.None? {
      FollowMovesOnly(a, cfg, pageSize, 0, "", reply.more);
    } else if reply.Object? {
      var c := reply.collection.value;
      var w1 := Opened(a, c);
      SameFold(c.field);
      FoldSymmetric(c.field, w.field);
      var token := if CursorPath(cfg) != "" then reply.token else "";
      FollowMovesOnly(Keep(w1, c.items), cfg, pageSize, |c.items|, token, reply.more);
    }
  }

  lemma SameFold(field: string)
    ensures EqualFold(field, field) && (EqualFold(field, "") <==> field == "")
  {
  }

  lemma FoldSymmetric(a: string, b: string)
    ensures EqualFold(a, b) <==> EqualFold(b, a)
  {
  }

  /** The walk's account of itself is what the server sent it. */
  ghost predicate Follows(server: Server, cfg: Config, clean: Params, w: Walk) {
    && |w.sent| == w.page && (!w.shapeSet ==> w.field == "")
    && w.clean == (if w.page == 0 then clean else clean[cfg.cursorParam := Get(w.clean, cfg.cursorParam)])
    && w.fetched == Lists(Replies(server, cfg, clean, w.sent))
    && OneCollection(w, Replies(server, cfg, clean, w.sent))
  }

  /** The replies whose lists an ending accounts for: all, but for a refused one. */
  function Accounted(server: Server, cfg: Config, clean: Params, e: Ending): seq<Reply> {
    var replies := Replies(server, cfg, clean, e.walk.sent);
    if e.Finished? || replies == [] then replies else replies[..|replies| - 1]
  }

  ghost predicate EndingFollows(server: Server, cfg: Config, clean: Params, e: Ending) {
    && e.walk.fetched == Lists(Accounted(server, cfg, clean, e))
    && OneCollection(e.walk, Accounted(server, cfg, clean, e))
  }

  lemma MoreReplies(server: Server, cfg: Config, clean: Params, sent: seq<string>, cursor: string)
    ensures var replies := Replies(server, cfg, clean, sent + [cursor]);
      && |replies| == |sent| + 1 && replies[..|sent|] == Replies(server, cfg, clean, sent)
      && replies[|sent|] == server(|sent|, if sent == [] then clean else clean[cfg.cursorParam := cursor])
      && Lists(replies) == Lists(Replies(server, cfg, clean, sent)) + ListIn(replies[|sent|])
  {
    var more := sent + [cursor];
    var replies := Replies(server, cfg, clean, more);
    forall k | 0 <= k < |sent| ensures RequestAt(cfg, clean, more, k) == RequestAt(cfg, clean, sent, k) {
      assert more[k] == sent[k];
    }
    assert replies[..|sent|] == Replies(server, cfg, clean, sent);
    assert replies[|sent|] == server(|sent|, RequestAt(cfg, clean, more, |sent|));
  }

  lemma OneMoreReply(w: Walk, a: Walk, replies: seq<Reply>, reply: Reply)
    requires OneCollection(w, replies)
    requires ListIn(reply) == [] ==> a.shapeSet == w.shapeSet && a.field == w.field
    requires ListIn(reply) != [] ==> a.shapeSet && SameCollection(a, reply) && (w.shapeSet ==> a.field == w.field)
    ensures OneCollection(a, replies + [reply])
  {
    hide EqualFold;
  }

  lemma TurnFollows(server: Server, cfg: Config, clean: Params, pageSize: int, w: Walk)
    requires Follows(server, cfg, clean, w)
    ensures var t := TurnOn(Asked(w, cfg), cfg, pageSize, server(w.page, w.clean));
      match t
      case GoOn(w') => w'.page == w.page + 1 ==> Follows(server, cfg, clean, w')
      case Stop(e) => EndingFollows(server, cfg, clean, e)
  {
    hide TurnOn, Lists, ListIn, Replies, OneCollection, SameCollection;
    var reply := server(w.page, w.clean);
    var t := TurnOn(Asked(w, cfg), cfg, pageSize, reply);
    TurnTakesIn(w, cfg, pageSize, reply);
    var cursor := Get(w.clean, cfg.cursorParam);
    var replies := Replies(server, cfg, clean, w.sent);
    MoreReplies(server, cfg, clean, w.sent, cursor);
    assert Replies(server, cfg, clean, w.sent + [cursor]) == replies + [reply];
    if t.Stop? && !t.ending.Finished? {
      assert (replies + [reply])[..|replies|] == replies;
      SameShape(w, After(t), replies);
    } else {
      OneMoreReply(w, After(t), replies, reply);
    }
  }

  lemma SameShape(w: Walk, a: Walk, replies: seq<Reply>)
    ensures a.shapeSet == w.shapeSet && a.field == w.field && OneCollection(w, replies) ==> OneCollection(a, replies)
  {
  }

  lemma {:induction false} WalkFollows(server: Server, cfg: Config, clean: Params, pageSize: int, w: Walk)
    requires Follows(server, cfg, clean, w) && w.page < MAX_PAGES
    ensures EndingFollows(server, cfg, clean, WalkOn(server, cfg, pageSize, w))
    decreases MAX_PAGES - w.page
  {
    hide TurnOn, EndingFollows, Follows;
    var turn := TurnOn(Asked(w, cfg), cfg, pageSize, server(w.page, w.clean));
    TurnFollows(server, cfg, clean, pageSize, w);
    if turn.GoOn? {
      WalkFollows(server, cfg, clean, pageSize, turn.walk);
    }
  }

  /** Against any server: at most 100 requests, and what is returned is the lists of
      its replies to them, in order, less a final one that repeats its predecessor;
      and all of them are the same collection.  A walk that is refused drops the one
      reply it is refused for. */
  lemma ReturnsWhatWasSent(server: Server, cfg: Config, params: Params)
    ensures var e := FetchAll(server, cfg, params);
      && EndingOk(e)
      && EndingFollows(server, cfg, Begin(cfg, params).clean, e)
  {
    hide WalkOn, Clean, WithLimit, PageSize, EndingOk;
    var w := Begin(cfg, params);
    ReturnsWhatWasFetched(server, cfg, params);
    assert Follows(server, cfg, w.clean, w) by {
      NoReplies(server, cfg, w);
    }
    WalkFollows(server, cfg, w.clean, PageSize(cfg, Clean(cfg, params)), w);
  }

  lemma NoReplies(server: Server, cfg: Config, w: Walk)
    ensures Replies(server, cfg, w.clean, []) == [] && Lists([]) == []
  {
  }

  // ----- any server: how far each request moves on -----

  /** Each step is the one that the reply to its request calls for. */
  ghost predicate StepsOk(server: Server, cfg: Config, clean: Params, pageSize: int, sent: seq<string>,
                          steps: seq<int>)
  {
    && |steps| <= |sent|
    && forall k :: 0 <= k < |steps| ==>
         steps[k] == StepOf(cfg, pageSize, CountIn(server(k, RequestAt(cfg, clean, sent, k))))
  }

  lemma OneMoreStep(server: Server, cfg: Config, clean: Params, pageSize: int, w: Walk, step: int)
    requires Follows(server, cfg, clean, w) && |w.steps| == w.page
    requires StepsOk(server, cfg, clean, pageSize, w.sent, w.steps)
    ensures StepsOk(server, cfg, clean, pageSize, Cursors(w, cfg), w.steps)
    ensures step == StepOf(cfg, pageSize, CountIn(server(w.page, w.clean))) ==>
      StepsOk(server, cfg, clean, pageSize, Cursors(w, cfg), w.steps + [step])
  {
    hide StepOf, CountIn, Lists, Replies, OneCollection;
    var more := Cursors(w, cfg);
    forall k | 0 <= k < |w.sent| ensures RequestAt(cfg, clean, more, k) == RequestAt(cfg, clean, w.sent, k) {
      assert more[k] == w.sent[k];
    }
    assert RequestAt(cfg, clean, more, w.page) == w.clean;
  }

  lemma {:induction false} PositionWalk(server: Server, cfg: Config, clean: Params, pageSize: int, w: Walk)
    requires !cfg.kind.CursorKind? && cfg.nextCursorPath == "" && w.page < MAX_PAGES && |w.steps| == w.page
    requires PositionsOk(cfg, Cursors(w, cfg), w.steps)
    requires Follows(server, cfg, clean, w) && StepsOk(server, cfg, clean, pageSize, w.sent, w.steps)
    ensures var e := WalkOn(server, cfg, pageSize, w);
      && PositionsOk(cfg, e.walk.sent, e.walk.steps)
      && StepsOk(server, cfg, clean, pageSize, e.walk.sent, e.walk.steps)
    decreases MAX_PAGES - w.page
  {
    hide TurnOn, PositionsOk, StepOf, CountIn, StepsOk, Follows;
    var reply := server(w.page, w.clean);
    var turn := TurnOn(Asked(w, cfg), cfg, pageSize, reply);
    PositionTurn(w, cfg, pageSize, reply);
    OneMoreStep(server, cfg, clean, pageSize, w, StepOf(cfg, pageSize, CountIn(reply)));
    if turn.GoOn? {
      TurnFollows(server, cfg, clean, pageSize, w);
      SentOneMore(server, cfg, clean, pageSize, w);
      PositionWalk(server, cfg, clean, pageSize, turn.walk);
    }
  }

  lemma SentOneMore(server: Server, cfg: Config, clean: Params, pageSize: int, w: Walk)
    requires Follows(server, cfg, clean, w)
    ensures var t := TurnOn(Asked(w, cfg), cfg, pageSize, server(w.page, w.clean));
      t.GoOn? ==> t.walk.sent == Cursors(w, cfg)
  {
    hide TurnOn, Lists, Replies, OneCollection;
    TurnTakesIn(w, cfg, pageSize, server(w.page, w.clean));
  }

  /** With offsets or page numbers and no cursor path, every request asks further
      on than the one before, exactly as long as the sum fits in 64 bits: by one page
      number; by the page size when one is declared; and otherwise by the number of
      items the server sent, or by one when it sent none. */
  lemma PositionsMoveForward(server: Server, cfg: Config, params: Params, k: nat)
    requires !cfg.kind.CursorKind? && cfg.nextCursorPath == ""
    requires k + 1 < |FetchAll(server, cfg, params).walk.sent|
    ensures var sent := FetchAll(server, cfg, params).walk.sent;
      var count := CountIn(server(k, RequestAt(cfg, Begin(cfg, params).clean, sent, k)));
      var step := StepOf(cfg, PageSize(cfg, Clean(cfg, params)), count);
      && Position(cfg, sent[k]).Some?
      && Position(cfg, sent[k + 1]) == Some(Wrap(Position(cfg, sent[k]).value + step))
      && (step <= INT64_MAX ==>
            (Position(cfg, sent[k + 1]).value > Position(cfg, sent[k]).value
             <==> Position(cfg, sent[k]).value + step <= INT64_MAX))
  {
    hide WalkOn, Clean, WithLimit, PageSize, Atoi, Wrap, Lists, Replies, StepOf, CountIn;
    var start := Begin(cfg, params);
    assert Follows(server, cfg, start.clean, start) by {
      NoReplies(server, cfg, start);
    }
    PositionWalk(server, cfg, start.clean, PageSize(cfg, Clean(cfg, params)), start);
    var w := FetchAll(server, cfg, params).walk;
    AtoiFits(w.sent[k]);
    if w.steps[k] <= INT64_MAX {
      WrapMovesForward(Position(cfg, w.sent[k]).value, w.steps[k]);
    }
  }

  lemma AtoiFits(s: string)
    ensures Atoi(s).Some? ==> IsInt64(Atoi(s).value)
  {
  }

  // ----- a position that overflows -----

  /** Five short of the limit, pages of ten. */
  const NEAR_LIMIT: Config := Config("offset", OffsetKind, "", 10, "", "")

  /** Ten items on the first request, then none. */
  function TenThenNone(items: seq<Item>): Server {
    (call: nat, params: Params) => if call == 0 then BareArray(items) else BareArray([])
  }

  /** The second request asks at a negative offset. */
  lemma PositionsCanOverflow(items: seq<Item>, start: string)
    requires |items| == 10 && start == Itoa(INT64_MAX - 5)
    ensures var sent := FetchAll(TenThenNone(items), NEAR_LIMIT, map["offset" := start]).walk.sent;
      && |sent| == 2 && sent[0] == start
      && Position(NEAR_LIMIT, sent[0]) == Some(INT64_MAX - 5) && Position(NEAR_LIMIT, sent[1]) == Some(INT64_MIN + 4)
  {
    hide Itoa, Atoi;
    var cfg, params, server := NEAR_LIMIT, map["offset" := start], TenThenNone(items);
    ItoaNotEmpty(INT64_MAX - 5);
    AtoiReadsItoa(INT64_MAX - 5);
    PositionAfter(cfg, INT64_MAX + 5);
    assert Wrap(INT64_MAX + 5) == INT64_MIN + 4;
    var w := Begin(cfg, params);
    assert w.clean == params;
    var t := TurnOn(Asked(w, cfg), cfg, 10, BareArray(items));
    assert t.GoOn? && t.walk.sent == [start];
    var t2 := TurnOn(Asked(t.walk, cfg), cfg, 10, BareArray([]));
    assert t2.Stop? && t2.ending.walk.sent == [start, Itoa(INT64_MIN + 4)];
    assert WalkOn(server, cfg, 10, t.walk) == t2.ending;
    assert WalkOn(server, cfg, 10, w) == WalkOn(server, cfg, 10, t.walk);
  }
}
