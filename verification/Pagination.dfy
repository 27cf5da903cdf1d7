/** Fetching every page of a collection from a server that is not trusted.

    A reply is reduced to what the paginator looks at.  An item is its raw JSON
    text.  `token` is what the object carries at the path the paginator looks
    for a cursor, "" when there is none; `more` is the has-more flag. */
module Pagination {
  import opened Wrappers
  import opened Decimal
  import Letters

  const MAX_PAGES: nat := 100

  type Item = string

  type Params = map<string, string>

  /** `field` is the collection's key, "" for one of the canonical keys. */
  datatype Collection = Collection(field: string, items: seq<Item>)

  datatype Reply =
    | TransportError(error: string)
    | DryRun
    | BareArray(items: seq<Item>)
    | Object(collection: Option<Collection>, token: string, more: Option<bool>)
    | Scalar

  /** Any behaviour at all: the reply may depend on the number of the call. */
  type Server = (nat, Params) -> Reply

  datatype Kind = OffsetKind | PageKind | CursorKind

  datatype Config = Config(
    cursorParam: string,
    kind: Kind,
    limitParam: string,
    defaultPageSize: int,
    nextCursorPath: string,
    hasMoreField: string)

  datatype Reason = RepeatedPage | RepeatedCursor | MaxPages | MissingCursor | MissingSignal

  /** The loop's variables, and what it did so far (`sent` cursor values, `steps`
      between positions, `fetched` collections). */
  datatype Walk = Walk(
    clean: Params,
    items: seq<Item>,
    field: string,
    shapeSet: bool,
    seen: set<string>,
    previous: Option<seq<Item>>,
    foundCursor: bool,
    page: nat,
    sent: seq<string>,
    steps: seq<int>,
    fetched: seq<seq<Item>>)

  datatype Ending =
    | Finished(walk: Walk, truncated: Option<Reason>)
    | Refused(walk: Walk, error: string)
    | Preview(walk: Walk)

  datatype Turn = GoOn(walk: Walk) | Stop(ending: Ending)

  // ----- parameters -----

  function Get(params: Params, key: string): string {
    if key in params then params[key] else ""
  }

  /** Empty values go, and so do "0" and "false" except as an offset. */
  function Clean(cfg: Config, params: Params): Params {
    map k | k in params && params[k] != ""
            && ((k == cfg.cursorParam && cfg.kind.OffsetKind?) || (params[k] != "0" && params[k] != "false"))
          :: params[k]
  }

  function Limit(cfg: Config, clean: Params): Option<int> {
    if cfg.limitParam == "" then None
    else
      match Atoi(Get(clean, cfg.limitParam))
      case Some(n) => if n > 0 then Some(n) else None
      case None => None
  }

  function PageSize(cfg: Config, clean: Params): int {
    if cfg.kind.CursorKind? then 0 else if Limit(cfg, clean).Some? then Limit(cfg, clean).value else cfg.defaultPageSize
  }

  function WithLimit(cfg: Config, clean: Params): Params {
    var size := PageSize(cfg, clean);
    if !cfg.kind.CursorKind? && cfg.limitParam != "" && Limit(cfg, clean).None? && size > 0
    then clean[cfg.limitParam := Itoa(size)]
    else clean
  }

  function CursorPath(cfg: Config): string {
    if cfg.nextCursorPath == "" && cfg.kind.CursorKind? then cfg.cursorParam else cfg.nextCursorPath
  }

  // ----- the next position -----

  function FirstPosition(cfg: Config): int {
    if cfg.kind.PageKind? then 1 else 0
  }

  /** The position a cursor value stands for; the first one when it is absent. */
  function Position(cfg: Config, cursor: string): Option<int> {
    if cursor == "" then Some(FirstPosition(cfg)) else Atoi(cursor)
  }

  /** How far the next request moves, None when it cannot be told. */
  function Step(cfg: Config, clean: Params, pageSize: int): Option<int> {
    if cfg.cursorParam == "" || Position(cfg, Get(clean, cfg.cursorParam)).None? then None
    else
      match cfg.kind
      case PageKind => Some(1)
      case OffsetKind => if pageSize <= 0 then None else Some(pageSize)
      case CursorKind => None
  }

  function FullPageStep(cfg: Config, clean: Params, pageSize: int, count: nat): Option<int> {
    if cfg.kind.CursorKind? || count == 0 || (pageSize > 0 && count < pageSize) then None
    else Step(cfg, clean, if pageSize <= 0 && cfg.kind.OffsetKind? then count else pageSize)
  }

  // ----- one turn of the loop -----

  function Advance(w: Walk, cfg: Config, cursor: string, step: int): (t: Turn)
    ensures t.GoOn? ==> t.walk.page == w.page < MAX_PAGES
  {
    if w.page >= MAX_PAGES then Stop(Finished(w, Some(MaxPages)))
    else GoOn(w.(clean := w.clean[cfg.cursorParam := cursor], steps := w.steps + [step]))
  }

  function AdvanceBy(w: Walk, cfg: Config, step: int): (t: Turn)
    ensures t.GoOn? ==> t.walk.page == w.page < MAX_PAGES
  {
    var position := Position(cfg, Get(w.clean, cfg.cursorParam));
    if position.None? then Stop(Finished(w, None)) else Advance(w, cfg, Itoa(Wrap(position.value + step)), step)
  }

  function FullPageOrStop(w: Walk, cfg: Config, pageSize: int, count: nat): (t: Turn)
    ensures t.GoOn? ==> t.walk.page == w.page < MAX_PAGES
  {
    match FullPageStep(cfg, w.clean, pageSize, count)
    case Some(step) => AdvanceBy(w, cfg, step)
    case None => Stop(Finished(w, None))
  }

  function Keep(w: Walk, items: seq<Item>): Walk {
    w.(previous := Some(items), items := w.items + items)
  }

  predicate EqualFold(a: string, b: string) { Letters.Lower(a) == Letters.Lower(b) }

  /** The collection of a later page must be the one of the first. */
  predicate ShapeChanged(w: Walk, field: string) {
    w.shapeSet && ((w.field != "" && (field == "" || !EqualFold(w.field, field))) || (w.field == "" && field != ""))
  }

  function BareTurn(w: Walk, cfg: Config, pageSize: int, items: seq<Item>): (t: Turn)
    ensures t.GoOn? ==> t.walk.page == w.page < MAX_PAGES
  {
    if w.shapeSet && w.field != "" then Stop(Refused(w, "collection changed to a bare array"))
    else
      var w1 := w.(shapeSet := true, fetched := w.fetched + [items]);
      if w.previous == Some(items) then Stop(Finished(w1, Some(RepeatedPage)))
      else FullPageOrStop(Keep(w1, items), cfg, pageSize, |items|)
  }

  /** After the collection, if any, has been taken in: follow the cursor, else
      the has-more flag, else the full-page rule. */
  function FollowTurn(w: Walk, cfg: Config, pageSize: int, count: nat, token: string, more: Option<bool>): (t: Turn)
    ensures t.GoOn? ==> t.walk.page == w.page < MAX_PAGES
  {
    if token != "" then
      var found := w.(foundCursor := true);
      if token in w.seen then Stop(Finished(found, Some(RepeatedCursor)))
      else Advance(found.(seen := w.seen + {token}), cfg, token, 0)
    else if cfg.hasMoreField != "" && more == Some(true) then
      var size := if pageSize > 0 || !cfg.kind.OffsetKind? then pageSize else if count > 0 then count else 1;
      match Step(cfg, w.clean, size)
      case Some(step) => AdvanceBy(w, cfg, step)
      case None => Stop(Finished(w, Some(MissingCursor)))
    else if cfg.hasMoreField == "" && cfg.nextCursorPath == "" then FullPageOrStop(w, cfg, pageSize, count)
    else Stop(Finished(w, None))
  }

  /** A collection is noted before it is known whether it repeats the last one. */
  function Opened(w: Walk, c: Collection): Walk {
    w.(shapeSet := true, field := if w.shapeSet then w.field else c.field, fetched := w.fetched + [c.items])
  }

  function ObjectTurn(w: Walk, cfg: Config, pageSize: int, collection: Option<Collection>, token: string,
                      more: Option<bool>): (t: Turn)
    ensures t.GoOn? ==> t.walk.page == w.page < MAX_PAGES
  {
    match collection
    case None => FollowTurn(w, cfg, pageSize, 0, "", more)
    case Some(c) =>
      if ShapeChanged(w, c.field) then Stop(Refused(w, "collection changed"))
      else
        var w1 := Opened(w, c);
        var next := if CursorPath(cfg) != "" then token else "";
        if w.previous == Some(c.items)
           && (cfg.kind.OffsetKind? || (CursorPath(cfg) != "" && (next == "" || next == Get(w.clean, cfg.cursorParam))))
        then Stop(Finished(w1, Some(RepeatedPage)))
        else FollowTurn(Keep(w1, c.items), cfg, pageSize, |c.items|, next, more)
  }

  function TurnOn(w: Walk, cfg: Config, pageSize: int, reply: Reply): (t: Turn)
    ensures t.GoOn? ==> t.walk.page == w.page < MAX_PAGES
  {
    match reply
    case TransportError(e) => Stop(Refused(w, e))
    case DryRun => Stop(Preview(w))
    case BareArray(items) => BareTurn(w, cfg, pageSize, items)
    case Object(collection, token, more) => ObjectTurn(w, cfg, pageSize, collection, token, more)
    case Scalar => Stop(Finished(w, None))
  }

  // ----- the loop -----

  function Asked(w: Walk, cfg: Config): Walk {
    w.(page := w.page + 1, sent := w.sent + [Get(w.clean, cfg.cursorParam)])
  }

  function WalkOn(server: Server, cfg: Config, pageSize: int, w: Walk): Ending
    decreases MAX_PAGES - w.page
  {
    match TurnOn(Asked(w, cfg), cfg, pageSize, server(w.page, w.clean))
    case Stop(ending) => ending
    case GoOn(w') => WalkOn(server, cfg, pageSize, w')
  }

  function Begin(cfg: Config, params: Params): Walk {
    var clean := WithLimit(cfg, Clean(cfg, params));
    var cursor := Get(clean, cfg.cursorParam);
    Walk(clean, [], "", false, if cursor != "" then {cursor} else {}, None, false, 0, [], [], [])
  }

  /** One page from a source that declares no way to go on is called incomplete. */
  function Judged(cfg: Config, e: Ending): Ending {
    if e.Finished? && e.walk.page == 1 && cfg.nextCursorPath == "" && !e.walk.foundCursor && cfg.hasMoreField == ""
       && cfg.kind.CursorKind?
    then Finished(e.walk, Some(MissingSignal))
    else e
  }

  function FetchAll(server: Server, cfg: Config, params: Params): Ending {
    Judged(cfg, WalkOn(server, cfg, PageSize(cfg, Clean(cfg, params)), Begin(cfg, params)))
  }

  /** The loop itself. */
  method PaginatedGet(server: Server, cfg: Config, params: Params) returns (ending: Ending)
    ensures ending == FetchAll(server, cfg, params)
  {
    hide Clean, WithLimit, PageSize, Atoi, Itoa, Wrap;
    var pageSize := PageSize(cfg, Clean(cfg, params));
    var w := Begin(cfg, params);
    ghost var start := w;
    while true
      invariant WalkOn(server, cfg, pageSize, w) == WalkOn(server, cfg, pageSize, start)
      decreases MAX_PAGES - w.page
    {
      ghost var head := w;
      var reply := server(w.page, w.clean);
      w := w.(page := w.page + 1, sent := w.sent + [Get(w.clean, cfg.cursorParam)]);
      var next: Turn;
      match reply {
        case TransportError(e) => next := Stop(Refused(w, e));
        case DryRun => next := Stop(Preview(w));
        case Scalar => next := Stop(Finished(w, None));
        case BareArray(items) => next := TakeArray(w, cfg, pageSize, items);
        case Object(collection, token, more) => next := TakeObject(w, cfg, pageSize, collection, token, more);
      }
      assert next == TurnOn(Asked(head, cfg), cfg, pageSize, reply);
      match next {
        case Stop(e) =>
          ending := Judged(cfg, e);
          return;
        case GoOn(w') => w := w';
      }
    }
  }

  method TakeArray(was: Walk, cfg: Config, pageSize: int, items: seq<Item>) returns (next: Turn)
    ensures next == BareTurn(was, cfg, pageSize, items)
  {
    var w := was;
    if w.shapeSet && w.field != "" {
      return Stop(Refused(w, "collection changed to a bare array"));
    }
    w := w.(shapeSet := true, fetched := w.fetched + [items]);
    if w.previous.Some? && w.previous.value == items {
      return Stop(Finished(w, Some(RepeatedPage)));
    }
    w := w.(previous := Some(items), items := w.items + items);
    next := FullPageOrStop(w, cfg, pageSize, |items|);
  }

  method TakeObject(was: Walk, cfg: Config, pageSize: int, collection: Option<Collection>, token: string,
                    more: Option<bool>)
    returns (next: Turn)
    ensures next == ObjectTurn(was, cfg, pageSize, collection, token, more)
  {
    hide EqualFold, Advance, AdvanceBy, FullPageOrStop, Step;
    var w, count, cursor := was, 0, "";
    if collection.Some? {
      var c := collection.value;
      if !w.shapeSet {
        w := w.(field := c.field);
      } else if (w.field != "" && (c.field == "" || !EqualFold(w.field, c.field))) || (w.field == "" && c.field != "") {
        return Stop(Refused(w, "collection changed"));
      }
      w := w.(shapeSet := true, fetched := w.fetched + [c.items]);
      if CursorPath(cfg) != "" {
        cursor := token;
      }
      if w.previous.Some? && w.previous.value == c.items
         && (cfg.kind.OffsetKind?
             || (CursorPath(cfg) != "" && (cursor == "" || cursor == Get(w.clean, cfg.cursorParam)))) {
        return Stop(Finished(w, Some(RepeatedPage)));
      }
      w := w.(previous := Some(c.items), items := w.items + c.items);
      count := |c.items|;
    }
    if cursor != "" {
      w := w.(foundCursor := true);
      if cursor in w.seen {
        return Stop(Finished(w, Some(RepeatedCursor)));
      }
      w := w.(seen := w.seen + {cursor});
      return Advance(w, cfg, cursor, 0);
    }
    if cfg.hasMoreField != "" && more.Some? && more.value {
      var size := pageSize;
      if size <= 0 && cfg.kind.OffsetKind? {
        size := count;
        if size <= 0 {
          size := 1;
        }
      }
      var step := Step(cfg, w.clean, size);
      if step.Some? {
        return AdvanceBy(w, cfg, step.value);
      }
      return Stop(Finished(w, Some(MissingCursor)));
    }
    if cfg.nextCursorPath == "" && cfg.hasMoreField == "" {
      return FullPageOrStop(w, cfg, pageSize, count);
    }
    return Stop(Finished(w, None));
  }
}
