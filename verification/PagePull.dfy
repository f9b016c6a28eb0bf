/** Page pulls: the sync server ships, for the WAL frames between the client's revision and its own,
    the last version of each page. */
module PagePull {
  import opened Outcome
  import opened Bytes
  import Decimal

  type PageNo = n: nat | n >= 1 witness 1

  /** A WAL frame. Page numbers start at 1; the protocol's page ids start at 0. */
  datatype Frame = Frame(pageNo: PageNo, data: seq<byte>)

  datatype PageData = PageData(pageId: nat, data: seq<byte>)

  datatype PageError = NoSuchFrame(frameNo: nat)

  /** The frames 1..|wal| of the write-ahead log, in commit order. */
  type Wal = seq<Frame>

  type Selector = Option<set<nat>>

  predicate Selected(selector: Selector, f: Frame) {
    selector.None? || f.pageNo - 1 in selector.value
  }

  function ToPage(f: Frame): PageData {
    PageData(f.pageNo - 1, f.data)
  }

  // ----- what a pull means -----

  type Database = map<nat, seq<byte>>

  /** Replays every selected frame with index in [lo, hi), oldest first. */
  function Replay(db: Database, wal: Wal, lo: nat, hi: nat, selector: Selector): Database
    requires lo <= hi <= |wal|
    decreases hi - lo
  {
    if lo == hi then db
    else
      Replay(if Selected(selector, wal[lo]) then Store(db, ToPage(wal[lo])) else db, wal, lo + 1, hi, selector)
  }

  function Store(db: Database, page: PageData): Database {
    db[page.pageId := page.data]
  }

  /** What the client does with the pages it receives. */
  function Apply(db: Database, pages: seq<PageData>): Database
    decreases pages
  {
    if pages == [] then db else Apply(Store(db, pages[0]), pages[1..])
  }

  predicate OccursIn(wal: Wal, lo: nat, hi: nat, pageNo: nat)
    requires hi <= |wal|
  {
    exists i :: lo <= i < hi && wal[i].pageNo == pageNo
  }

  /** Frame `i` is selected and its page is not written again before `hi`. */
  predicate Kept(wal: Wal, i: nat, hi: nat, selector: Selector)
    requires i < hi <= |wal|
  {
    Selected(selector, wal[i]) && !OccursIn(wal, i + 1, hi, wal[i].pageNo)
  }

  /** The pages of the kept frames in [lo, hi), oldest first. */
  function LastVersions(wal: Wal, lo: nat, hi: nat, selector: Selector): (r: seq<PageData>)
    requires lo <= hi <= |wal|
    decreases hi - lo
  {
    if lo == hi then []
    else
      (if Kept(wal, lo, hi, selector) then [ToPage(wal[lo])] else [])
      + LastVersions(wal, lo + 1, hi, selector)
  }

  // ----- the handler's loop -----

  /** The page selection of `handle_page_pull_updates`: newest frame first, then reversed. */
  method SelectPages(wal: Wal, client: nat, server: nat, selector: Selector)
      returns (r: Result<seq<PageData>, PageError>)
    ensures server <= client ==> r == Ok([])
    ensures client < server && |wal| < server ==> r == Err(NoSuchFrame(server))
    ensures client < server <= |wal| ==> r == Ok(LastVersions(wal, client, server, selector))
  {
    var seenPages: set<nat> := {};
    var pagesToSend: seq<PageData> := [];
    if server > client {
      var frameNo := server;
      while frameNo > client
        invariant client <= frameNo <= server
        invariant |wal| < server ==> frameNo == server
        invariant server <= |wal| ==> SeenSoFar(wal, frameNo, server, selector, seenPages)
        invariant server <= |wal| ==> Reverse(pagesToSend) == LastVersions(wal, frameNo, server, selector)
      {
        if frameNo > |wal| {
          return Err(NoSuchFrame(frameNo));
        }
        var frame := wal[frameNo - 1];
        frameNo := frameNo - 1;
        if frame.pageNo in seenPages {
          continue;
        }
        if !Selected(selector, frame) {
          continue;
        }
        seenPages := seenPages + {frame.pageNo};
        ReverseAppend(pagesToSend, ToPage(frame));
        pagesToSend := pagesToSend + [ToPage(frame)];
      }
    }
    r := Ok(Reverse(pagesToSend));
  }

  /** The pages already chosen are the selected ones among the frames visited. */
  ghost predicate SeenSoFar(wal: Wal, lo: nat, hi: nat, selector: Selector, seen: set<nat>)
    requires lo <= hi <= |wal|
  {
    && (forall p | p in seen :: OccursIn(wal, lo, hi, p))
    && (forall i | lo <= i < hi :: Selected(selector, wal[i]) ==> wal[i].pageNo in seen)
  }

  function Reverse(pages: seq<PageData>): seq<PageData> {
    if pages == [] then [] else [pages[|pages| - 1]] + Reverse(pages[..|pages| - 1])
  }

  lemma ReverseAppend(pages: seq<PageData>, p: PageData)
    ensures Reverse(pages + [p]) == [p] + Reverse(pages)
  {
    assert (pages + [p])[..|pages|] == pages;
  }

  // ----- the pages sent -----

  lemma VersionsUnfold(wal: Wal, lo: nat, hi: nat, selector: Selector)
    requires lo < hi <= |wal|
    ensures var later := LastVersions(wal, lo + 1, hi, selector);
      LastVersions(wal, lo, hi, selector)
      == if Kept(wal, lo, hi, selector) then [ToPage(wal[lo])] + later else later
  {
    hide Kept, ToPage;
    var later := LastVersions(wal, lo + 1, hi, selector);
    assert [] + later == later;
  }

  /** `pages` are those of the frames `at`: oldest first, selected, and the last to write their page. */
  predicate SentFrom(wal: Wal, lo: nat, hi: nat, selector: Selector, at: seq<nat>, pages: seq<PageData>)
    requires hi <= |wal|
  {
    && |at| == |pages|
    && (forall k | 0 <= k < |at| :: lo <= at[k] < hi && pages[k] == ToPage(wal[at[k]])
           && Kept(wal, at[k], hi, selector))
    && (forall j, k | 0 <= j < k < |at| :: at[j] < at[k])
  }

  lemma {:induction false} SentFrames(wal: Wal, lo: nat, hi: nat, selector: Selector) returns (at: seq<nat>)
    requires lo <= hi <= |wal|
    ensures SentFrom(wal, lo, hi, selector, at, LastVersions(wal, lo, hi, selector))
    decreases hi - lo
  {
    if lo == hi {
      at := [];
    } else {
      hide SentFrom, Kept, LastVersions;
      at := SentFrames(wal, lo + 1, hi, selector);
      VersionsUnfold(wal, lo, hi, selector);
      OneMoreSent(wal, lo, hi, selector, at, LastVersions(wal, lo + 1, hi, selector));
      if Kept(wal, lo, hi, selector) {
        at := [lo] + at;
      }
    }
  }

  lemma OneMoreSent(wal: Wal, lo: nat, hi: nat, selector: Selector, at: seq<nat>, pages: seq<PageData>)
    requires lo < hi <= |wal| && SentFrom(wal, lo + 1, hi, selector, at, pages)
    ensures SentFrom(wal, lo, hi, selector, at, pages)
    ensures Kept(wal, lo, hi, selector) ==> SentFrom(wal, lo, hi, selector, [lo] + at, [ToPage(wal[lo])] + pages)
  {
    hide Kept, ToPage;
  }

  /** No page is sent twice. */
  lemma SentOnce(wal: Wal, lo: nat, hi: nat, selector: Selector, j: nat, k: nat)
    requires lo <= hi <= |wal| && j < k < |LastVersions(wal, lo, hi, selector)|
    ensures LastVersions(wal, lo, hi, selector)[j].pageId != LastVersions(wal, lo, hi, selector)[k].pageId
  {
    var at := SentFrames(wal, lo, hi, selector);
    assert Kept(wal, at[j], hi, selector);
    assert at[j] < at[k];
  }

  /** Every selected page written in the range is sent. */
  lemma {:induction false} AllSent(wal: Wal, lo: nat, hi: nat, selector: Selector, i: nat) returns (k: nat)
    requires lo <= i < hi <= |wal| && Selected(selector, wal[i])
    ensures k < |LastVersions(wal, lo, hi, selector)|
    ensures LastVersions(wal, lo, hi, selector)[k].pageId == wal[i].pageNo - 1
    decreases hi - lo
  {
    hide LastVersions;
    VersionsUnfold(wal, lo, hi, selector);
    if Kept(wal, lo, hi, selector) {
      if i == lo {
        k := 0;
      } else {
        k := AllSent(wal, lo + 1, hi, selector, i);
        k := k + 1;
      }
    } else {
      if i == lo {
        var next :| lo + 1 <= next < hi && wal[next].pageNo == wal[lo].pageNo;
        k := AllSent(wal, lo + 1, hi, selector, next);
      } else {
        k := AllSent(wal, lo + 1, hi, selector, i);
      }
    }
  }

  // ----- applying them -----

  /** A page that is written again anyway may have held anything before. */
  lemma {:induction false} ReplayForgets(db: Database, page: PageData, wal: Wal, lo: nat, hi: nat, selector: Selector)
    requires lo <= hi <= |wal|
    requires OccursIn(wal, lo, hi, page.pageId + 1) && (selector.None? || page.pageId in selector.value)
    ensures Replay(Store(db, page), wal, lo, hi, selector) == Replay(db, wal, lo, hi, selector)
    decreases hi - lo
  {
    var i :| lo <= i < hi && wal[i].pageNo == page.pageId + 1;
    var first := ToPage(wal[lo]);
    if first.pageId == page.pageId {
      assert Store(Store(db, page), first) == Store(db, first);
    } else {
      assert Store(Store(db, page), first) == Store(Store(db, first), page);
      ReplayForgets(if Selected(selector, wal[lo]) then Store(db, first) else db, page, wal, lo + 1, hi, selector);
    }
  }

  /** Applying the de-duplicated pages has the effect of replaying every frame in the range on the
      selected pages. */
  lemma {:induction false} ApplyIsReplay(db: Database, wal: Wal, lo: nat, hi: nat, selector: Selector)
    requires lo <= hi <= |wal|
    ensures Apply(db, LastVersions(wal, lo, hi, selector)) == Replay(db, wal, lo, hi, selector)
    decreases hi - lo
  {
    hide *;
    if lo == hi {
      NothingToReplay(db, wal, lo, selector);
    } else {
      VersionsUnfold(wal, lo, hi, selector);
      ReplayUnfolds(db, wal, lo, hi, selector);
      var later := LastVersions(wal, lo + 1, hi, selector);
      if Kept(wal, lo, hi, selector) {
        KeptIsSelected(wal, lo, hi, selector);
        ApplyFirst(db, ToPage(wal[lo]), later);
        ApplyIsReplay(Store(db, ToPage(wal[lo])), wal, lo + 1, hi, selector);
      } else {
        ApplyIsReplay(db, wal, lo + 1, hi, selector);
        if Selected(selector, wal[lo]) {
          WrittenAgain(db, wal, lo, hi, selector);
        }
      }
    }
  }

  lemma NothingToReplay(db: Database, wal: Wal, lo: nat, selector: Selector)
    requires lo <= |wal|
    ensures Apply(db, LastVersions(wal, lo, lo, selector)) == db == Replay(db, wal, lo, lo, selector)
  {
  }

  lemma KeptIsSelected(wal: Wal, i: nat, hi: nat, selector: Selector)
    requires i < hi <= |wal| && Kept(wal, i, hi, selector)
    ensures Selected(selector, wal[i])
  {
  }

  /** A selected frame that is not kept does not show in the replay. */
  lemma WrittenAgain(db: Database, wal: Wal, lo: nat, hi: nat, selector: Selector)
    requires lo < hi <= |wal| && Selected(selector, wal[lo]) && !Kept(wal, lo, hi, selector)
    ensures Replay(Store(db, ToPage(wal[lo])), wal, lo + 1, hi, selector) == Replay(db, wal, lo + 1, hi, selector)
  {
    hide Replay, Store;
    ReplayForgets(db, ToPage(wal[lo]), wal, lo + 1, hi, selector);
  }

  lemma ReplayUnfolds(db: Database, wal: Wal, lo: nat, hi: nat, selector: Selector)
    requires lo < hi <= |wal|
    ensures Replay(db, wal, lo, hi, selector)
         == Replay(if Selected(selector, wal[lo]) then Store(db, ToPage(wal[lo])) else db, wal, lo + 1, hi, selector)
  {
  }

  lemma ApplyFirst(db: Database, first: PageData, later: seq<PageData>)
    ensures Apply(db, [first] + later) == Apply(Store(db, first), later)
  {
    assert ([first] + later)[1..] == later;
  }

  /** No later frame of the range writes the same page. */
  predicate LastWrite(wal: Wal, i: nat, hi: nat)
    requires i < hi <= |wal|
  {
    forall j | i < j < hi :: wal[j].pageNo != wal[i].pageNo
  }

  /** No frame of the range writes the page, or it is not selected. */
  predicate Untouched(wal: Wal, lo: nat, hi: nat, selector: Selector, page: nat)
    requires hi <= |wal|
  {
    (selector.Some? && page !in selector.value) || forall i | lo <= i < hi :: wal[i].pageNo != page + 1
  }

  predicate SameAt(after: Database, before: Database, page: nat) {
    (page in after <==> page in before) && (page in after ==> after[page] == before[page])
  }

  /** The database after a pull of [lo, hi), said of the frames alone: a selected page holds the data of the
      last frame that wrote it, and every other page is as it was. */
  ghost predicate HoldsNewest(after: Database, before: Database, wal: Wal, lo: nat, hi: nat, selector: Selector)
    requires hi <= |wal|
  {
    && (forall i | lo <= i < hi && (selector == None || wal[i].pageNo - 1 in selector.value) && LastWrite(wal, i, hi) ::
          wal[i].pageNo - 1 in after && after[wal[i].pageNo - 1] == wal[i].data)
    && (forall page: nat | Untouched(wal, lo, hi, selector, page) :: SameAt(after, before, page))
  }

  lemma {:induction false} ReplayHoldsNewest(db: Database, wal: Wal, lo: nat, hi: nat, selector: Selector)
    requires lo <= hi <= |wal|
    ensures HoldsNewest(Replay(db, wal, lo, hi, selector), db, wal, lo, hi, selector)
    decreases hi - lo
  {
    hide *;
    if lo == hi {
      NothingToReplay(db, wal, lo, selector);
      NothingNewer(db, wal, lo, selector);
    } else {
      ReplayUnfolds(db, wal, lo, hi, selector);
      ReplayHoldsNewest(if Selected(selector, wal[lo]) then Store(db, ToPage(wal[lo])) else db,
                        wal, lo + 1, hi, selector);
      FrameBefore(Replay(db, wal, lo, hi, selector), db, wal, lo, hi, selector);
    }
  }

  lemma NothingNewer(db: Database, wal: Wal, lo: nat, selector: Selector)
    requires lo <= |wal|
    ensures HoldsNewest(db, db, wal, lo, lo, selector)
  {
  }

  /** One frame more, before the others. */
  lemma FrameBefore(after: Database, db: Database, wal: Wal, lo: nat, hi: nat, selector: Selector)
    requires lo < hi <= |wal|
    requires HoldsNewest(after, if Selected(selector, wal[lo]) then Store(db, ToPage(wal[lo])) else db,
                         wal, lo + 1, hi, selector)
    ensures HoldsNewest(after, db, wal, lo, hi, selector)
  {
    var next := if Selected(selector, wal[lo]) then Store(db, ToPage(wal[lo])) else db;
    forall page: nat | Untouched(wal, lo, hi, selector, page)
      ensures SameAt(after, db, page)
    {
      assert Untouched(wal, lo + 1, hi, selector, page);
      assert SameAt(after, next, page);
    }
    if Selected(selector, wal[lo]) && LastWrite(wal, lo, hi) {
      assert Untouched(wal, lo + 1, hi, selector, wal[lo].pageNo - 1);
      assert SameAt(after, next, wal[lo].pageNo - 1);
    }
  }

  /** Applying what is sent makes the client hold the newest of every selected page. */
  lemma PullHoldsNewest(db: Database, wal: Wal, lo: nat, hi: nat, selector: Selector)
    requires lo <= hi <= |wal|
    ensures HoldsNewest(Apply(db, LastVersions(wal, lo, hi, selector)), db, wal, lo, hi, selector)
  {
    hide Replay, Apply, LastVersions, HoldsNewest;
    ApplyIsReplay(db, wal, lo, hi, selector);
    ReplayHoldsNewest(db, wal, lo, hi, selector);
  }

  lemma {:induction false} ReplayComposes(db: Database, wal: Wal, a: nat, b: nat, c: nat, selector: Selector)
    requires a <= b <= c <= |wal|
    ensures Replay(Replay(db, wal, a, b, selector), wal, b, c, selector) == Replay(db, wal, a, c, selector)
    decreases b - a
  {
    if a < b {
      ReplayComposes(if Selected(selector, wal[a]) then Store(db, ToPage(wal[a])) else db, wal, a + 1, b, c, selector);
    }
  }

  /** Pulling (a, b] and then (b, c] leaves the client where pulling (a, c] would. */
  lemma PullsCompose(db: Database, wal: Wal, a: nat, b: nat, c: nat, selector: Selector)
    requires a <= b <= c <= |wal|
    ensures Apply(Apply(db, LastVersions(wal, a, b, selector)), LastVersions(wal, b, c, selector))
         == Apply(db, LastVersions(wal, a, c, selector))
  {
    ApplyIsReplay(db, wal, a, b, selector);
    ApplyIsReplay(Replay(db, wal, a, b, selector), wal, b, c, selector);
    ApplyIsReplay(db, wal, a, c, selector);
    ReplayComposes(db, wal, a, b, c, selector);
  }

  // ----- whole runs -----

  /** The revision strings: an empty or unreadable one falls back. */
  function ReadRevision(s: string, fallback: nat): nat {
    if s == "" then fallback
    else
      match Decimal.Parse(s, 0xFFFF_FFFF_FFFF_FFFF)
      case None => fallback
      case Some(n) => n
  }

  /** A revision handed out is read back, and anything but digits, with a plus sign or not, falls back. */
  lemma RevisionIsRead(n: nat, s: string, fallback: nat)
    ensures ReadRevision(Decimal.Render(n), fallback) == if n <= 18446744073709551615 then n else fallback
    ensures s == "" || (exists c :: c in s && c != '+' && !Decimal.IsDigit(c)) ==> ReadRevision(s, fallback) == fallback
  {
    Decimal.ParseOfRender(n, 0xFFFF_FFFF_FFFF_FFFF);
  }

  datatype Client = Client(revision: string, db: Database)

  /** One pull by a client that asks for the newest state the server has. */
  function PullNewest(wal: Wal, selector: Selector, c: Client): Client {
    var client, server := ReadRevision(c.revision, 0), ReadRevision("", |wal|);
    Client(Decimal.Render(server),
           if server <= client then c.db else Apply(c.db, LastVersions(wal, client, server, selector)))
  }

  /** `handle_page_pull_updates`, from the request's revisions to the response's revision and pages. */
  method HandlePagePull(wal: Wal, clientRevision: string, serverRevision: string, selector: Selector)
      returns (r: Result<(string, seq<PageData>), PageError>)
    ensures var server, client := ReadRevision(serverRevision, |wal|), ReadRevision(clientRevision, 0);
            && (r.Err? <==> client < server && |wal| < server)
            && (r.Ok? ==> r.value.0 == Decimal.Render(server))
            && (r.Ok? ==> forall db :: Apply(db, r.value.1)
                            == if client < server then Replay(db, wal, client, server, selector) else db)
            && (r.Ok? && client < server ==>
                  forall db :: HoldsNewest(Apply(db, r.value.1), db, wal, client, server, selector))
    ensures serverRevision == "" ==>
              forall c: Client | c.revision == clientRevision ::
                PullNewest(wal, selector, c) == Client(r.value.0, Apply(c.db, r.value.1))
  {
    var server := ReadRevision(serverRevision, |wal|);
    var client := ReadRevision(clientRevision, 0);
    var pages := SelectPages(wal, client, server, selector);
    if pages.Err? {
      return Err(pages.error);
    }
    r := Ok((Decimal.Render(server), pages.value));
    forall db: Database
      ensures Apply(db, pages.value) == if client < server then Replay(db, wal, client, server, selector) else db
      ensures client < server ==> HoldsNewest(Apply(db, pages.value), db, wal, client, server, selector)
    {
      hide HoldsNewest;
      if client < server {
        ApplyIsReplay(db, wal, client, server, selector);
        ReplayHoldsNewest(db, wal, client, server, selector);
      }
    }
  }

  function PullRun(wals: seq<Wal>, selector: Selector): Client {
    if wals == [] then Client("", map[])
    else PullNewest(wals[|wals| - 1], selector, PullRun(wals[..|wals| - 1], selector))
  }

  predicate Grows(wals: seq<Wal>) {
    && (forall i | 0 <= i < |wals| :: |wals[i]| <= 0xFFFF_FFFF_FFFF_FFFF)
    && (forall i, j | 0 <= i < j < |wals| :: wals[i] <= wals[j])
  }

  lemma {:induction false} ReplayOfPrefix(db: Database, wal: Wal, longer: Wal, lo: nat, hi: nat, selector: Selector)
    requires wal <= longer && lo <= hi <= |wal|
    ensures Replay(db, wal, lo, hi, selector) == Replay(db, longer, lo, hi, selector)
    decreases hi - lo
  {
    if lo < hi {
      assert wal[lo] == longer[lo];
      ReplayOfPrefix(if Selected(selector, wal[lo]) then Store(db, ToPage(wal[lo])) else db,
                     wal, longer, lo + 1, hi, selector);
    }
  }

  /** However the WAL grows between pulls, a client that presents each returned revision ends with
      the replay of the whole WAL. */
  lemma {:induction false} RunIsReplay(wals: seq<Wal>, selector: Selector)
    requires Grows(wals) && wals != []
    ensures var wal := wals[|wals| - 1];
      PullRun(wals, selector) == Client(Decimal.Render(|wal|), Replay(map[], wal, 0, |wal|, selector))
  {
    hide PullNewest, Replay, Decimal.Render;
    var n := |wals| - 1;
    var before, wal := wals[..n], wals[n];
    if before == [] {
      NewestIsReplay(wal, selector, Client("", map[]), 0);
    } else {
      RunIsReplay(before, selector);
      var prev := before[n - 1];
      assert prev == wals[n - 1] && prev <= wal;
      ReplayOfPrefix(map[], prev, wal, 0, |prev|, selector);
      NewestIsReplay(wal, selector, PullRun(before, selector), |prev|);
      ReplayComposes(map[], wal, 0, |prev|, |wal|, selector);
    }
  }

  /** So the client ends with the data of the last frame of every selected page, and with nothing else. */
  lemma RunHoldsNewest(wals: seq<Wal>, selector: Selector)
    requires Grows(wals) && wals != []
    ensures var wal := wals[|wals| - 1]; HoldsNewest(PullRun(wals, selector).db, map[], wal, 0, |wal|, selector)
  {
    hide Replay, HoldsNewest, PullRun;
    RunIsReplay(wals, selector);
    var wal := wals[|wals| - 1];
    ReplayHoldsNewest(map[], wal, 0, |wal|, selector);
  }

  /** One pull replays the frames after the client's own. */
  lemma NewestIsReplay(wal: Wal, selector: Selector, c: Client, at: nat)
    requires at <= |wal| <= 0xFFFF_FFFF_FFFF_FFFF
    requires c.revision == Decimal.Render(at) || (c.revision == "" && at == 0)
    ensures PullNewest(wal, selector, c) == Client(Decimal.Render(|wal|), Replay(c.db, wal, at, |wal|, selector))
  {
    hide Replay, LastVersions, Apply, Decimal.Render;
    if c.revision != "" {
      Decimal.ParseOfRender(at, 0xFFFF_FFFF_FFFF_FFFF);
    }
    ApplyIsReplay(c.db, wal, at, |wal|, selector);
    if at == |wal| {
      NothingToReplay(c.db, wal, at, selector);
    }
  }
}
