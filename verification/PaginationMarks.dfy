/** What each reply makes of a walk, told from the replies before it alone. */
module PaginationMarks {
  import opened Wrappers
  import opened Decimal
  import opened Pagination
  import opened PaginationRuns
  import Letters

  /** Ask again at a cursor, return with or without a mark, fail, or show a preview. */
  datatype Say = Ask(cursor: string) | Finish(mark: Option<Reason>) | Refuse | Show

  predicate LooksForCursor(cfg: Config) {
    cfg.nextCursorPath != "" || (cfg.kind.CursorKind? && cfg.cursorParam != "")
  }

  function TokenIn(cfg: Config, reply: Reply): string {
    if reply.Object? && reply.collection.Some? && LooksForCursor(cfg) then reply.token else ""
  }

  function FieldIn(reply: Reply): Option<string> {
    match reply
    case BareArray(_) => Some("")
    case Object(Some(c), _, _) => Some(c.field)
    case _ => None
  }

  /** The collection the first reply with a list names. */
  function FirstField(replies: seq<Reply>): Option<string> {
    if replies == [] then None
    else if FieldIn(replies[0]).Some? then FieldIn(replies[0])
    else FirstField(replies[1..])
  }

  predicate SameButCase(a: string, b: string) {
    |a| == |b| && forall i :: 0 <= i < |a| ==> Letters.SameLetter(a[i], b[i])
  }

  predicate IsOther(field: string, first: string) {
    if field == "" || first == "" then field != first else !SameButCase(first, field)
  }

  /** The cursor was sent with the first request or came with a reply. */
  ghost predicate IsKnown(cfg: Config, first: string, replies: seq<Reply>, cursor: string) {
    cursor == first || exists k :: 0 <= k < |replies| && TokenIn(cfg, replies[k]) == cursor
  }

  /** The same list twice running, where that means no progress. */
  predicate Repeats(cfg: Config, cursor: string, before: seq<Reply>, reply: Reply) {
    && ListIn(reply) != [] && LastPage(Lists(before)) == Some(ListIn(reply)[0])
    && (reply.BareArray? || cfg.kind.OffsetKind?
        || (LooksForCursor(cfg) && (TokenIn(cfg, reply) == "" || TokenIn(cfg, reply) == cursor)))
  }

  /** What `reply` says, sent for `cursor` after the replies `before`, in a walk
      that began at the cursor `first`. */
  ghost function Says(cfg: Config, pageSize: int, first: string, cursor: string, before: seq<Reply>, reply: Reply): Say
  {
    var token, count, field := TokenIn(cfg, reply), CountIn(reply), FieldIn(reply);
    var here := if cfg.kind.CursorKind? || cfg.cursorParam == "" then None else Position(cfg, cursor);
    var full := count > 0 && (pageSize <= 0 || count >= pageSize);
    var noSign := cfg.hasMoreField == "" && cfg.nextCursorPath == "";
    if reply.TransportError? then Refuse
    else if field.Some? && FirstField(before).Some? && IsOther(field.value, FirstField(before).value) then Refuse
    else if reply.DryRun? then Show
    else if Repeats(cfg, cursor, before, reply) then Finish(Some(RepeatedPage))
    else if token != "" then
      if IsKnown(cfg, first, before, token) then Finish(Some(RepeatedCursor)) else Ask(token)
    else
      var more := reply.Object? && cfg.hasMoreField != "" && reply.more == Some(true);
      var follows := more || (full && (reply.BareArray? || (reply.Object? && noSign)));
      if follows && here.Some? then Ask(Itoa(Wrap(here.value + StepOf(cfg, pageSize, count))))
      else if more then Finish(Some(MissingCursor))
      else if before == [] && cfg.kind.CursorKind? && noSign then Finish(Some(MissingSignal))
      else Finish(None)
  }

  // ----- the walk's variables and the replies -----

  ghost predicate Recalls(cfg: Config, first: string, w: Walk, before: seq<Reply>) {
    && w.page == |before| && (w.page == 0 ==> !w.foundCursor)
    && w.previous == LastPage(Lists(before))
    && w.shapeSet == FirstField(before).Some? && w.field == (if w.shapeSet then FirstField(before).value else "")
    && forall x :: x in w.seen <==> x != "" && IsKnown(cfg, first, before, x)
  }

  /** What becomes of the walk when it follows what was said. */
  ghost predicate Obeys(cfg: Config, first: string, before: seq<Reply>, reply: Reply, say: Say, t: Turn) {
    match say
    case Ask(cursor) =>
      if |before| + 1 < MAX_PAGES
      then t.GoOn? && Get(t.walk.clean, cfg.cursorParam) == cursor && Recalls(cfg, first, t.walk, before + [reply])
      else t.Stop? && t.ending.Finished? && Judged(cfg, t.ending).truncated == Some(MaxPages)
    case Finish(mark) => t.Stop? && t.ending.Finished? && Judged(cfg, t.ending).truncated == mark
    case Refuse => t.Stop? && t.ending.Refused?
    case Show => t.Stop? && t.ending.Preview?
  }

  lemma {:induction false} FirstFieldGrows(before: seq<Reply>, reply: Reply)
    ensures FirstField(before + [reply]) == if FirstField(before).Some? then FirstField(before) else FieldIn(reply)
  {
    if before == [] {
      assert [reply][1..] == [];
    } else {
      assert (before + [reply])[1..] == before[1..] + [reply];
      FirstFieldGrows(before[1..], reply);
    }
  }

  lemma KnownGrows(cfg: Config, first: string, before: seq<Reply>, reply: Reply, x: string)
    ensures IsKnown(cfg, first, before + [reply], x) <==> IsKnown(cfg, first, before, x) || x == TokenIn(cfg, reply)
  {
    var more := before + [reply];
    assert forall k :: 0 <= k < |before| ==> more[k] == before[k];
    assert more[|before|] == reply;
  }

  lemma ListsGrow(before: seq<Reply>, reply: Reply)
    ensures LastPage(Lists(before + [reply])) == if ListIn(reply) == [] then LastPage(Lists(before))
        else Some(ListIn(reply)[0])
  {
    assert (before + [reply])[..|before|] == before;
  }

  /** The walk recalls one more reply. */
  lemma RecallsMore(cfg: Config, first: string, w: Walk, before: seq<Reply>, reply: Reply, w': Walk)
    requires Recalls(cfg, first, w, before)
    requires w'.page == w.page + 1 && w'.shapeSet == (w.shapeSet || FieldIn(reply).Some?)
    requires w'.field == if w.shapeSet then w.field else if FieldIn(reply).Some? then FieldIn(reply).value else ""
    requires w'.previous == if ListIn(reply) == [] then w.previous else Some(ListIn(reply)[0])
    requires w'.seen == if TokenIn(cfg, reply) == "" then w.seen else w.seen + {TokenIn(cfg, reply)}
    ensures Recalls(cfg, first, w', before + [reply])
  {
    hide Lists, FirstField, IsKnown, TokenIn;
    FirstFieldGrows(before, reply);
    ListsGrow(before, reply);
    forall x ensures x in w'.seen <==> x != "" && IsKnown(cfg, first, before + [reply], x) {
      KnownGrows(cfg, first, before, reply, x);
    }
  }

  // ----- one turn -----

  lemma Advances(cfg: Config, first: string, before: seq<Reply>, reply: Reply, a: Walk, cursor: string, step: int)
    requires Recalls(cfg, first, a, before + [reply]) && |before| < MAX_PAGES
    ensures Obeys(cfg, first, before, reply, Ask(cursor), Advance(a, cfg, cursor, step))
  {
    hide Lists, FirstField, IsKnown;
  }

  /** After the list, if any, was taken in and no cursor came with it. */
  lemma FollowsWithoutCursor(cfg: Config, first: string, pageSize: int, before: seq<Reply>, reply: Reply, a: Walk)
    requires Recalls(cfg, first, a, before + [reply]) && |before| < MAX_PAGES && TokenIn(cfg, reply) == ""
    requires reply.BareArray? || reply.Object?
    requires !Repeats(cfg, Get(a.clean, cfg.cursorParam), before, reply)
    requires |before| == 0 ==> !a.foundCursor
    requires FieldIn(reply).Some? && FirstField(before).Some?
        ==> !IsOther(FieldIn(reply).value, FirstField(before).value)
    ensures var t :=
        if reply.BareArray? then FullPageOrStop(a, cfg, pageSize, CountIn(reply))
        else FollowTurn(a, cfg, pageSize, CountIn(reply), "", reply.more);
      Obeys(cfg, first, before, reply, Says(cfg, pageSize, first, Get(a.clean, cfg.cursorParam), before, reply), t)
  {
    hide Lists, FirstField, IsKnown, Repeats, IsOther, TokenIn, ListIn, CountIn, Atoi, Itoa, Wrap, Recalls, Position;
    var position := Position(cfg, Get(a.clean, cfg.cursorParam));
    var step := StepOf(cfg, pageSize, CountIn(reply));
    if position.Some? {
      Advances(cfg, first, before, reply, a, Itoa(Wrap(position.value + step)), step);
    }
    RecallsPage(cfg, first, a, before + [reply]);
  }

  lemma RecallsPage(cfg: Config, first: string, a: Walk, before: seq<Reply>)
    requires Recalls(cfg, first, a, before)
    ensures a.page == |before|
  {
  }

  /** What a refused reply or one without a list or a cursor leads to. */
  lemma PlainTurn(cfg: Config, first: string, pageSize: int, w: Walk, before: seq<Reply>, reply: Reply)
    requires Recalls(cfg, first, w, before) && |before| < MAX_PAGES
    requires reply.TransportError? || reply.DryRun? || reply.Scalar?
    ensures Obeys(cfg, first, before, reply, Says(cfg, pageSize, first, Get(w.clean, cfg.cursorParam), before, reply),
                  TurnOn(Asked(w, cfg), cfg, pageSize, reply))
  {
    hide Lists, FirstField, IsKnown, IsOther, Atoi, Itoa, Wrap, Position;
  }

  lemma ListTurn(cfg: Config, first: string, pageSize: int, w: Walk, before: seq<Reply>, reply: Reply)
    requires Recalls(cfg, first, w, before) && |before| < MAX_PAGES
    requires reply.BareArray?
    ensures Obeys(cfg, first, before, reply, Says(cfg, pageSize, first, Get(w.clean, cfg.cursorParam), before, reply),
                  TurnOn(Asked(w, cfg), cfg, pageSize, reply))
  {
    hide Lists, FirstField, IsKnown, Atoi, Itoa, Wrap, Position, FullPageOrStop;
    NothingListed();
    var a := Keep(Asked(w, cfg).(shapeSet := true, fetched := w.fetched + [reply.items]), reply.items);
    if !(w.shapeSet && w.field != "") {
      RecallsMore(cfg, first, w, before, reply, a);
      if !Repeats(cfg, Get(a.clean, cfg.cursorParam), before, reply) {
        FollowsWithoutCursor(cfg, first, pageSize, before, reply, a);
      }
    }
  }

  lemma ObjectSays(cfg: Config, first: string, pageSize: int, w: Walk, before: seq<Reply>, reply: Reply)
    requires Recalls(cfg, first, w, before) && |before| < MAX_PAGES
    requires reply.Object?
    ensures Obeys(cfg, first, before, reply, Says(cfg, pageSize, first, Get(w.clean, cfg.cursorParam), before, reply),
                  TurnOn(Asked(w, cfg), cfg, pageSize, reply))
  {
    hide Lists, FirstField, IsKnown, Atoi, Itoa, Wrap, Position, FullPageOrStop, EqualFold, SameButCase;
    NothingListed();
    var asked := Asked(w, cfg);
    if reply.collection.None? {
      RecallsMore(cfg, first, w, before, reply, asked);
      FollowsWithoutCursor(cfg, first, pageSize, before, reply, asked);
    } else {
      var c, token := reply.collection.value, TokenIn(cfg, reply);
      var a := Keep(Opened(asked, c), c.items);
      FoldsExactly(w.field, c.field);
      assert ShapeChanged(asked, c.field) <==> w.shapeSet && IsOther(c.field, w.field);
      if !ShapeChanged(asked, c.field) && !Repeats(cfg, Get(a.clean, cfg.cursorParam), before, reply) {
        if token == "" {
          RecallsMore(cfg, first, w, before, reply, a);
          FollowsWithoutCursor(cfg, first, pageSize, before, reply, a);
        } else if !IsKnown(cfg, first, before, token) {
          var found := a.(foundCursor := true, seen := a.seen + {token});
          RecallsMore(cfg, first, w, before, reply, found);
          Advances(cfg, first, before, reply, found, token, 0);
        }
      }
    }
  }

  lemma FoldsExactly(a: string, b: string)
    ensures EqualFold(a, b) <==> SameButCase(a, b)
  {
    Letters.LowerIgnoresCase(a, b);
  }

  lemma NothingListed()
    ensures LastPage(Lists([])) == None
  {
  }

  lemma SaysTurn(cfg: Config, first: string, pageSize: int, w: Walk, before: seq<Reply>, reply: Reply)
    requires Recalls(cfg, first, w, before) && |before| < MAX_PAGES
    ensures Obeys(cfg, first, before, reply, Says(cfg, pageSize, first, Get(w.clean, cfg.cursorParam), before, reply),
                  TurnOn(Asked(w, cfg), cfg, pageSize, reply))
  {
    hide Recalls, Obeys, Says, TurnOn;
    match reply
    case BareArray(_) => ListTurn(cfg, first, pageSize, w, before, reply);
    case Object(_, _, _) => ObjectSays(cfg, first, pageSize, w, before, reply);
    case _ => PlainTurn(cfg, first, pageSize, w, before, reply);
  }

  // ----- whole walks -----

  /** What the reply to the k-th request says. */
  ghost function SaysAt(cfg: Config, pageSize: int, sent: seq<string>, replies: seq<Reply>, k: nat): Say
    requires k < |sent| && k < |replies|
  {
    Says(cfg, pageSize, sent[0], sent[k], replies[..k], replies[k])
  }

  ghost predicate GoesOnAsSaid(cfg: Config, pageSize: int, sent: seq<string>, replies: seq<Reply>) {
    && |sent| == |replies| + 1
    && forall k :: 0 <= k < |replies| ==> SaysAt(cfg, pageSize, sent, replies, k) == Ask(sent[k + 1])
  }

  /** Every reply but the last was followed by the request it asked for, and the
      last one ended the walk as it says; a request too many is not made. */
  ghost predicate EndsAsSaid(cfg: Config, pageSize: int, replies: seq<Reply>, e: Ending) {
    var sent, n := e.walk.sent, |e.walk.sent| - 1;
    && 0 <= n < MAX_PAGES && |replies| == n + 1
    && GoesOnAsSaid(cfg, pageSize, sent, replies[..n])
    && match SaysAt(cfg, pageSize, sent, replies, n)
       case Ask(_) => n == 99 && e.Finished? && e.truncated == Some(MaxPages)
       case Finish(mark) => e.Finished? && e.truncated == mark
       case Refuse => e.Refused?
       case Show => e.Preview?
  }

  /** Between two turns: the walk recalls the replies, and went on as they said. */
  ghost predicate OnCourse(server: Server, cfg: Config, clean: Params, pageSize: int, w: Walk) {
    var before, cursors := Replies(server, cfg, clean, w.sent), Cursors(w, cfg);
    && Follows(server, cfg, clean, w) && w.page < MAX_PAGES
    && Recalls(cfg, cursors[0], w, before) && GoesOnAsSaid(cfg, pageSize, cursors, before)
  }

  lemma GoesOnOnce(cfg: Config, pageSize: int, cursors: seq<string>, before: seq<Reply>, reply: Reply, cursor: string)
    requires GoesOnAsSaid(cfg, pageSize, cursors, before)
    requires Says(cfg, pageSize, cursors[0], cursors[|before|], before, reply) == Ask(cursor)
    ensures GoesOnAsSaid(cfg, pageSize, cursors + [cursor], before + [reply])
  {
    hide Says;
    var sent, replies := cursors + [cursor], before + [reply];
    forall k | 0 <= k < |replies| ensures SaysAt(cfg, pageSize, sent, replies, k) == Ask(sent[k + 1]) {
      assert replies[..k] == before[..k];
      if k < |before| {
        assert SaysAt(cfg, pageSize, cursors, before, k) == Ask(cursors[k + 1]);
      } else {
        assert before[..k] == before;
      }
    }
  }

  lemma EndsOnce(cfg: Config, pageSize: int, cursors: seq<string>, before: seq<Reply>, reply: Reply, e: Ending)
    requires GoesOnAsSaid(cfg, pageSize, cursors, before) && |before| < MAX_PAGES && e.walk.sent == cursors
    requires var say := Says(cfg, pageSize, cursors[0], cursors[|before|], before, reply);
      match say
      case Ask(_) => |before| == 99 && e.Finished? && e.truncated == Some(MaxPages)
      case Finish(mark) => e.Finished? && e.truncated == mark
      case Refuse => e.Refused?
      case Show => e.Preview?
    ensures EndsAsSaid(cfg, pageSize, before + [reply], e)
  {
    hide Says;
    var replies := before + [reply];
    assert replies[..|before|] == before;
  }

  lemma {:induction false} CourseIsKept(server: Server, cfg: Config, clean: Params, pageSize: int, w: Walk)
    requires OnCourse(server, cfg, clean, pageSize, w)
    ensures var e := Judged(cfg, WalkOn(server, cfg, pageSize, w));
      EndsAsSaid(cfg, pageSize, Replies(server, cfg, clean, e.walk.sent), e) && e.walk.sent[..1] == Cursors(w, cfg)[..1]
    decreases MAX_PAGES - w.page
  {
    hide TurnOn, Says, Recalls, Replies, GoesOnAsSaid, EndsAsSaid, Lists, OneCollection;
    var before, cursors := Replies(server, cfg, clean, w.sent), Cursors(w, cfg);
    var reply, cursor := server(w.page, w.clean), Get(w.clean, cfg.cursorParam);
    var t := TurnOn(Asked(w, cfg), cfg, pageSize, reply);
    MoreReplies(server, cfg, clean, w.sent, cursor);
    assert Replies(server, cfg, clean, cursors) == before + [reply];
    assert cursors[|before|] == cursor;
    SaysTurn(cfg, cursors[0], pageSize, w, before, reply);
    TurnTakesIn(w, cfg, pageSize, reply);
    if t.GoOn? {
      var next := Get(t.walk.clean, cfg.cursorParam);
      GoesOnOnce(cfg, pageSize, cursors, before, reply, next);
      TurnFollows(server, cfg, clean, pageSize, w);
      CourseIsKept(server, cfg, clean, pageSize, t.walk);
    } else {
      EndsOnce(cfg, pageSize, cursors, before, reply, Judged(cfg, t.ending));
    }
  }

  /** Against any server: each request after the first is the one the reply before
      it asks for, told from the replies alone, and the walk fails, shows a
      preview, returns unmarked or returns with a mark as its last reply says;
      only a hundredth reply that asks for more is cut off, and marked so. */
  lemma RepliesDecide(server: Server, cfg: Config, params: Params)
    ensures var e, clean := FetchAll(server, cfg, params), Begin(cfg, params).clean;
      && EndsAsSaid(cfg, PageSize(cfg, Clean(cfg, params)), Replies(server, cfg, clean, e.walk.sent), e)
      && e.walk.sent[0] == Get(clean, cfg.cursorParam)
  {
    hide WalkOn, Clean, WithLimit, PageSize, GoesOnAsSaid, SaysAt, Replies;
    var w := Begin(cfg, params);
    NoReplies(server, cfg, w);
    NothingListed();
    NothingAsked(cfg, PageSize(cfg, Clean(cfg, params)), Cursors(w, cfg));
    CourseIsKept(server, cfg, w.clean, PageSize(cfg, Clean(cfg, params)), w);
    assert FetchAll(server, cfg, params).walk.sent[..1][0] == Cursors(w, cfg)[..1][0];
  }

  lemma NothingAsked(cfg: Config, pageSize: int, cursors: seq<string>)
    requires |cursors| == 1
    ensures GoesOnAsSaid(cfg, pageSize, cursors, [])
  {
  }

  // ----- what every request carries -----

  /** A positive number is neither empty nor one of the values that are dropped. */
  lemma PositiveIsKept(s: string)
    ensures Atoi(s).Some? && Atoi(s).value > 0 ==> s != "" && s != "0" && s != "false"
  {
    if s == "0" {
      assert ParseDigits("0") == Some(0);
    } else if s == "false" {
      assert "false"[4] == 'e';
    }
  }

  lemma CleanKeeps(cfg: Config, params: Params, key: string)
    ensures key != cfg.cursorParam ==>
      (key in Clean(cfg, params)
       <==> key in params && params[key] != "" && params[key] != "0" && params[key] != "false")
    ensures key in Clean(cfg, params) ==> key in params && Clean(cfg, params)[key] == params[key]
    ensures cfg.kind.OffsetKind? && key == cfg.cursorParam ==>
      (key in Clean(cfg, params) <==> key in params && params[key] != "")
  {
  }

  /** Does the caller ask for so many items a page? */
  predicate AsksFor(cfg: Config, params: Params, limit: int) {
    cfg.limitParam != "" && cfg.limitParam in params && Atoi(params[cfg.limitParam]) == Some(limit) && limit > 0
  }

  /** Every request carries the caller's parameters unchanged, without those that
      are empty, "0" or "false".  Only the cursor differs, and outside cursor walks
      a limit that is no positive number, which the declared page size replaces. */
  lemma RequestsCarryTheParameters(server: Server, cfg: Config, params: Params, k: nat, key: string)
    requires cfg.limitParam != cfg.cursorParam
    requires k < |FetchAll(server, cfg, params).walk.sent|
    ensures var sent := FetchAll(server, cfg, params).walk.sent;
      var request := RequestAt(cfg, Begin(cfg, params).clean, sent, k);
      var asks := exists limit :: AsksFor(cfg, params, limit);
      && (k > 0 ==> cfg.cursorParam in request)
      && Get(request, cfg.cursorParam) == sent[k]
      && if key == cfg.cursorParam then
           k > 0 || !cfg.kind.OffsetKind? || sent[0] == Get(params, key)
         else if key == cfg.limitParam && key != "" && !cfg.kind.CursorKind? && !asks && cfg.defaultPageSize > 0 then
           key in request && request[key] == Itoa(cfg.defaultPageSize)
         else
           && (key in request <==> key in params && params[key] != "" && params[key] != "0" && params[key] != "false")
           && (key in request ==> request[key] == params[key])
  {
    hide WalkOn, Clean, Atoi, Itoa, Says, Replies, GoesOnAsSaid, SaysAt;
    RepliesDecide(server, cfg, params);
    CleanKeeps(cfg, params, key);
    CleanKeeps(cfg, params, cfg.limitParam);
    CleanKeeps(cfg, params, cfg.cursorParam);
    PositiveIsKept(Get(params, cfg.limitParam));
    LimitIsAsked(cfg, params);
  }

  /** What a request asks for as its limit is the size its reply's list is compared
      with: the caller's, or the declared one. */
  lemma RequestsAskForThePageSize(server: Server, cfg: Config, params: Params, k: nat)
    requires !cfg.kind.CursorKind? && cfg.limitParam !in {"", cfg.cursorParam} && IsInt64(cfg.defaultPageSize)
    requires k < |FetchAll(server, cfg, params).walk.sent|
    ensures var size := PageSize(cfg, Clean(cfg, params));
      var request := RequestAt(cfg, Begin(cfg, params).clean, FetchAll(server, cfg, params).walk.sent, k);
      && (size == cfg.defaultPageSize || AsksFor(cfg, params, size))
      && (forall limit :: AsksFor(cfg, params, limit) ==> size == limit)
      && (size > 0 ==> Atoi(Get(request, cfg.limitParam)) == Some(size))
  {
    hide WalkOn, Clean, Atoi, Itoa, Says, Replies, GoesOnAsSaid, SaysAt;
    CleanKeeps(cfg, params, cfg.limitParam);
    LimitIsAsked(cfg, params);
    AtoiReadsItoa(cfg.defaultPageSize);
  }

  lemma LimitIsAsked(cfg: Config, params: Params)
    requires cfg.limitParam != cfg.cursorParam
    ensures Limit(cfg, Clean(cfg, params)).Some? <==> exists limit :: AsksFor(cfg, params, limit)
    ensures forall limit :: AsksFor(cfg, params, limit) ==> Limit(cfg, Clean(cfg, params)) == Some(limit)
  {
    hide Clean, Atoi;
    CleanKeeps(cfg, params, cfg.limitParam);
    PositiveIsKept(Get(params, cfg.limitParam));
    PositiveIsKept("");
    if Limit(cfg, Clean(cfg, params)).Some? {
      assert AsksFor(cfg, params, Limit(cfg, Clean(cfg, params)).value);
    }
  }
}
