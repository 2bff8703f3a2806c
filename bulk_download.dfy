/**
 * `bulkDownloadToJson`: page through the entities or relationships of an
 * account with a cursor, and write each page, grouped by `_type`, to one
 * JSON file per group under `<storageDirectory>/json/<assetType>/<_type>/`.
 *
 * The remote service is a map from request path to response page; a path it
 * does not answer stands for a request that fails. `uuid()` is an oracle
 * whose n-th answer names the n-th file. The loop is bounded by `fuel`
 * follow-up requests, because the source loops for as long as the service
 * keeps answering with a non-empty cursor.
 */
module BulkDownload {
  import opened Optional
  import opened FirstSeen
  import opened Grouping

  datatype AssetType = Entities | Relationships

  function AssetTypeName(assetType: AssetType): string
  {
    match assetType
    case Entities => "entities"
    case Relationships => "relationships"
  }

  /** The parameters that shape requests and files (`apiKey` and `progress` are not modelled as data). */
  datatype BulkDownloadParams = BulkDownloadParams(storageDirectory: string, assetType: AssetType, includeDeleted: bool)

  /** A response body: the page's items and, when there are more, the cursor of the next page. */
  datatype Page = Page(items: seq<Asset>, endCursor: Option<string>)

  /** The remote service: the page it answers to each request path. */
  type Service = map<string, Page>

  /** A file path as the segments handed to `path.join`. */
  type Path = seq<string>

  datatype FileWrite = FileWrite(path: Path, contents: seq<Asset>)

  /**
   * One iteration of the loop, in the order it happens: the request, the
   * page answered, the files written for it (numbered from `firstFile` on),
   * and the total handed to `progress`.
   */
  datatype Round = Round(request: string, page: Page, firstFile: nat, progress: nat)

  datatype Outcome =
    | Completed
    /** The request was not answered; the error leaves `bulkDownloadToJson`. */
    | RequestFailed(request: string)
    /** The fuel bound was reached while the service still answered with a cursor. */
    | OutOfFuel

  /** What a download did: the directory it ensured first, its rounds, and how it ended. */
  datatype Run = Run(directory: Path, rounds: seq<Round>, outcome: Outcome)

  /** The rounds from some request on, and how they ended. */
  datatype Pagination = Pagination(rounds: seq<Round>, outcome: Outcome)

  /** The effects of a download, in the order they happen. */
  datatype Event =
    /** A call of `ensureDirectoryExists` on the asset directory. */
    | EnsureDirectory(directory: Path)
    | Request(path: string)
    /** A call of `exportAssetGroupToJson` on the items of a page, whose files are numbered from `firstFile`. */
    | Export(items: seq<Asset>, firstFile: nat)
    /** A call of `progress` with the running item total. */
    | Progress(total: nat)

  // ----- requests --------------------------------------------------------------

  /** A boolean in a template literal. */
  function BoolText(b: bool): string
  {
    if b then "true" else "false"
  }

  /** The request path without a cursor. */
  function RequestBase(params: BulkDownloadParams): string
  {
    "/" + AssetTypeName(params.assetType) + "?includeDeleted=" + BoolText(params.includeDeleted)
  }

  /** The request path for a cursor: the cursor is appended only when it is a non-empty string. */
  function RequestPath(params: BulkDownloadParams, cursor: Option<string>): (request: string)
    ensures RequestBase(params) <= request
    ensures Truthy(cursor) ==> request == RequestBase(params) + "&cursor=" + cursor.value
    ensures !Truthy(cursor) ==> request == RequestBase(params)
  {
    RequestBase(params) + if Truthy(cursor) then "&cursor=" + cursor.value else ""
  }

  /** Different cursors give different requests, and every cursor differs from none. */
  lemma RequestPathDistinguishesCursors(params: BulkDownloadParams, c1: Option<string>, c2: Option<string>)
    requires Truthy(c1)
    ensures RequestPath(params, c1) != RequestPath(params, None)
    ensures Truthy(c2) ==> (RequestPath(params, c1) == RequestPath(params, c2) <==> c1 == c2)
  {
    var base := RequestBase(params) + "&cursor=";
    assert RequestPath(params, c1) == base + c1.value;
    if Truthy(c2) && RequestPath(params, c1) == RequestPath(params, c2) {
      assert RequestPath(params, c2) == base + c2.value;
      assert c1.value == (base + c1.value)[|base|..];
      assert c2.value == (base + c2.value)[|base|..];
    }
  }

  // ----- files -------------------------------------------------------------------

  /** `path.join(storageDirectory, 'json', assetType)`. */
  function AssetPath(params: BulkDownloadParams): (path: Path)
    ensures |path| == 3 && path[0] == params.storageDirectory
  {
    [params.storageDirectory, "json", AssetTypeName(params.assetType)]
  }

  /** The number of files written for a page: the number of distinct types on it. */
  function FileCount(objects: seq<Asset>): nat
  {
    |Dedup(objects, TypeOf)|
  }

  /**
   * `exportAssetGroupToJson`: one file per group of the page, in group order,
   * at `<assetPath>/<_type>/<uuid>.json`; the k-th file of the page is the
   * `(firstFile + k)`-th answer of the oracle.
   */
  function ExportAssetGroupToJson(assetPath: Path, objects: seq<Asset>, uuid: nat -> string, firstFile: nat)
    : (writes: seq<FileWrite>)
    ensures |writes| == |GroupByType(objects)| == FileCount(objects)
  {
    var groups := GroupByType(objects);
    seq(|groups|, k requires 0 <= k < |groups| =>
      FileWrite(assetPath + [groups[k].typeName, uuid(firstFile + k) + ".json"], groups[k].items))
  }

  /** The k-th file of a page holds the k-th group, in the folder of its type. */
  lemma ExportWritesGroups(assetPath: Path, objects: seq<Asset>, uuid: nat -> string, firstFile: nat)
    ensures forall k :: 0 <= k < |ExportAssetGroupToJson(assetPath, objects, uuid, firstFile)| ==>
      ExportAssetGroupToJson(assetPath, objects, uuid, firstFile)[k].contents == GroupByType(objects)[k].items &&
      ExportAssetGroupToJson(assetPath, objects, uuid, firstFile)[k].path
        == assetPath + [GroupByType(objects)[k].typeName, uuid(firstFile + k) + ".json"]
  {
    var writes := ExportAssetGroupToJson(assetPath, objects, uuid, firstFile);
    var groups := GroupByType(objects);
    forall k | 0 <= k < |writes|
      ensures writes[k] == FileWrite(assetPath + [groups[k].typeName, uuid(firstFile + k) + ".json"], groups[k].items)
    {
    }
  }

  /** The contents of all files written, one after the other. */
  function WrittenItems(writes: seq<FileWrite>): seq<Asset>
  {
    if writes == [] then [] else writes[0].contents + WrittenItems(writes[1..])
  }

  /** The files written for a page hold the page's items, each exactly as often as the page does. */
  lemma ExportWritesWholePage(assetPath: Path, objects: seq<Asset>, uuid: nat -> string, firstFile: nat)
    ensures multiset(WrittenItems(ExportAssetGroupToJson(assetPath, objects, uuid, firstFile))) == multiset(objects)
  {
    ExportWritesGroups(assetPath, objects, uuid, firstFile);
    WrittenItemsAreGroups(ExportAssetGroupToJson(assetPath, objects, uuid, firstFile), GroupByType(objects));
    GroupByTypePartition(objects);
  }

  lemma {:induction false} WrittenItemsAreGroups(writes: seq<FileWrite>, groups: seq<Group>)
    requires |writes| == |groups|
    requires forall k :: 0 <= k < |writes| ==> writes[k].contents == groups[k].items
    ensures WrittenItems(writes) == Concat(groups)
  {
    if writes != [] {
      WrittenItemsAreGroups(writes[1..], groups[1..]);
    }
  }

  /**
   * A file written for a page sits under the asset directory, in the folder
   * of its type, under the name the oracle gave, and holds a non-empty list
   * of items all of that type.
   */
  predicate Placed(write: FileWrite, assetPath: Path, name: string)
  {
    && |write.path| == |assetPath| + 2
    && write.path[..|assetPath|] == assetPath
    && write.path[|assetPath| + 1] == name + ".json"
    && write.contents != []
    && forall a :: a in write.contents ==> a.typeName == write.path[|assetPath|]
  }

  /** Every file of `writes` is placed under `assetPath`, the j-th named by the oracle's `(first + j)`-th answer. */
  predicate PlacedFrom(writes: seq<FileWrite>, assetPath: Path, uuid: nat -> string, first: nat)
  {
    forall j :: 0 <= j < |writes| ==> Placed(writes[j], assetPath, uuid(first + j))
  }

  /** Every file of a page is placed, and no two files of a page share a folder. */
  lemma ExportPlacesFiles(assetPath: Path, objects: seq<Asset>, uuid: nat -> string, firstFile: nat)
    ensures PlacedFrom(ExportAssetGroupToJson(assetPath, objects, uuid, firstFile), assetPath, uuid, firstFile)
    ensures forall k1, k2 :: 0 <= k1 < k2 < |ExportAssetGroupToJson(assetPath, objects, uuid, firstFile)| ==>
      ExportAssetGroupToJson(assetPath, objects, uuid, firstFile)[k1].path[|assetPath|]
        != ExportAssetGroupToJson(assetPath, objects, uuid, firstFile)[k2].path[|assetPath|]
  {
    var writes := ExportAssetGroupToJson(assetPath, objects, uuid, firstFile);
    var groups := GroupByType(objects);
    ExportWritesGroups(assetPath, objects, uuid, firstFile);
    GroupsNonEmpty(objects);
    GroupTypesDistinct(objects);
    forall k | 0 <= k < |writes| ensures Placed(writes[k], assetPath, uuid(firstFile + k)) {
      assert writes[k].path[..|assetPath|] == assetPath;
      forall a | a in writes[k].contents ensures a.typeName == writes[k].path[|assetPath|] {
        var m :| 0 <= m < |groups[k].items| && groups[k].items[m] == a;
      }
    }
  }

  /** A page without items writes no file. */
  lemma EmptyPageWritesNothing(assetPath: Path, uuid: nat -> string, firstFile: nat)
    ensures ExportAssetGroupToJson(assetPath, [], uuid, firstFile) == []
  {
    EmptyPageHasNoGroups();
  }

  // ----- the loop ------------------------------------------------------------------

  /**
   * The rounds from the request for `cursor` on, after `assetCount` items and
   * `files` files so far, with at most `fuel` further requests after this one.
   */
  function FetchFrom(service: Service, params: BulkDownloadParams,
                     cursor: Option<string>, assetCount: nat, files: nat, fuel: nat): Pagination
    decreases fuel
  {
    var request := RequestPath(params, cursor);
    if request !in service then Pagination([], RequestFailed(request))
    else
      var page := service[request];
      var round := Round(request, page, files, assetCount + |page.items|);
      if !Truthy(page.endCursor) then Pagination([round], Completed)
      else if fuel == 0 then Pagination([round], OutOfFuel)
      else
        var next := FetchFrom(service, params, page.endCursor, round.progress, files + FileCount(page.items), fuel - 1);
        Pagination([round] + next.rounds, next.outcome)
  }

  /** An answered request whose page carries a cursor, with fuel left, is followed by the paging from that cursor. */
  lemma FetchContinues(service: Service, params: BulkDownloadParams,
                       cursor: Option<string>, assetCount: nat, files: nat, fuel: nat)
    requires RequestPath(params, cursor) in service
    requires Truthy(service[RequestPath(params, cursor)].endCursor) && fuel > 0
    ensures var page := service[RequestPath(params, cursor)];
      var next := FetchFrom(service, params, page.endCursor, assetCount + |page.items|, files + FileCount(page.items), fuel - 1);
      FetchFrom(service, params, cursor, assetCount, files, fuel)
        == Pagination([Round(RequestPath(params, cursor), page, files, assetCount + |page.items|)] + next.rounds, next.outcome)
  {
  }

  /** The whole download: ensure the asset directory, then page from no cursor. */
  function Download(service: Service, params: BulkDownloadParams, fuel: nat): Run
  {
    var pages := FetchFrom(service, params, None, 0, 0, fuel);
    Run(AssetPath(params), pages.rounds, pages.outcome)
  }

  /** The files written in a round. */
  function RoundWrites(params: BulkDownloadParams, uuid: nat -> string, round: Round): seq<FileWrite>
  {
    ExportAssetGroupToJson(AssetPath(params), round.page.items, uuid, round.firstFile)
  }

  /** The files written in a sequence of rounds, in the order they are written. */
  function AllWrites(params: BulkDownloadParams, uuid: nat -> string, rounds: seq<Round>): seq<FileWrite>
  {
    if rounds == [] then []
    else AllWrites(params, uuid, rounds[..|rounds| - 1]) + RoundWrites(params, uuid, rounds[|rounds| - 1])
  }

  /** The effects of a round: its request, then the export of its page, then its progress call. */
  function RoundEvents(round: Round): seq<Event>
  {
    [Request(round.request), Export(round.page.items, round.firstFile), Progress(round.progress)]
  }

  /** The effects of a sequence of rounds, round after round. */
  function Trace(rounds: seq<Round>): seq<Event>
  {
    if rounds == [] then [] else Trace(rounds[..|rounds| - 1]) + RoundEvents(rounds[|rounds| - 1])
  }

  /** The files an event writes: those of the page it exports, and none for any other event. */
  function EventWrites(params: BulkDownloadParams, uuid: nat -> string, event: Event): seq<FileWrite>
  {
    if event.Export? then ExportAssetGroupToJson(AssetPath(params), event.items, uuid, event.firstFile) else []
  }

  /** The sequences `f` gives for the elements of `xs`, one after the other. */
  function FlatMap<T, U>(f: T -> seq<U>, xs: seq<T>): seq<U>
  {
    if xs == [] then [] else FlatMap(f, xs[..|xs| - 1]) + f(xs[|xs| - 1])
  }

  /** The files a sequence of events writes, in order. */
  function TraceWrites(params: BulkDownloadParams, uuid: nat -> string, events: seq<Event>): seq<FileWrite>
  {
    FlatMap(e => EventWrites(params, uuid, e), events)
  }

  /**
   * The effects of a whole download: the directory is ensured, then come the
   * rounds' events, then the request that failed if one did.
   */
  function DownloadTrace(run: Run): seq<Event>
  {
    [EnsureDirectory(run.directory)] + Trace(run.rounds)
      + (if run.outcome.RequestFailed? then [Request(run.outcome.request)] else [])
  }

  /**
   * The loop invariant: the rounds done so far, followed by the paging still
   * to come from `cursor` on, make up the whole download `target`.
   */
  predicate Remaining(service: Service, params: BulkDownloadParams, target: Pagination, rounds: seq<Round>,
                      cursor: Option<string>, assetCount: nat, files: nat, fuel: nat)
  {
    var rest := FetchFrom(service, params, cursor, assetCount, files, fuel);
    rounds + rest.rounds == target.rounds && rest.outcome == target.outcome
  }

  /** A request the service does not answer ends the download with the rounds done so far. */
  lemma LoopFails(service: Service, params: BulkDownloadParams, target: Pagination, rounds: seq<Round>,
                  cursor: Option<string>, assetCount: nat, files: nat, fuel: nat)
    requires Remaining(service, params, target, rounds, cursor, assetCount, files, fuel)
    requires RequestPath(params, cursor) !in service
    ensures rounds == target.rounds && target.outcome == RequestFailed(RequestPath(params, cursor))
  {
    assert rounds + [] == rounds;
  }

  /** An answered round appends its request, the files of its page and its progress call to the trace. */
  lemma LoopTrace(rounds: seq<Round>, trace: seq<Event>, round: Round)
    requires trace == Trace(rounds)
    ensures trace + [Request(round.request)] + [Export(round.page.items, round.firstFile)] + [Progress(round.progress)]
         == Trace(rounds + [round])
  {
    assert (rounds + [round])[..|rounds|] == rounds;
  }

  /** An answered round whose page has no cursor, or that used the last fuel, ends the download. */
  lemma LoopEnds(service: Service, params: BulkDownloadParams, target: Pagination, rounds: seq<Round>,
                 cursor: Option<string>, assetCount: nat, files: nat, fuel: nat, round: Round)
    requires Remaining(service, params, target, rounds, cursor, assetCount, files, fuel)
    requires RequestPath(params, cursor) in service
    requires round == Round(RequestPath(params, cursor), service[RequestPath(params, cursor)],
                            files, assetCount + |service[RequestPath(params, cursor)].items|)
    requires !Truthy(round.page.endCursor) || fuel == 0
    ensures rounds + [round] == target.rounds
    ensures target.outcome == if !Truthy(round.page.endCursor) then Completed else OutOfFuel
  {
  }

  /**
   * An answered round whose page has a cursor, with fuel left, leaves the
   * invariant holding for the page's cursor, the new totals and one request
   * less.
   */
  lemma LoopContinues(service: Service, params: BulkDownloadParams, target: Pagination, rounds: seq<Round>,
                      cursor: Option<string>, assetCount: nat, files: nat, fuel: nat, round: Round)
    requires Remaining(service, params, target, rounds, cursor, assetCount, files, fuel)
    requires RequestPath(params, cursor) in service
    requires round == Round(RequestPath(params, cursor), service[RequestPath(params, cursor)],
                            files, assetCount + |service[RequestPath(params, cursor)].items|)
    requires Truthy(round.page.endCursor) && fuel > 0
    ensures Remaining(service, params, target, rounds + [round], round.page.endCursor, round.progress,
                      files + FileCount(round.page.items), fuel - 1)
  {
    var next := FetchFrom(service, params, round.page.endCursor, round.progress,
                          files + FileCount(round.page.items), fuel - 1);
    FetchContinues(service, params, cursor, assetCount, files, fuel);
    assert rounds + [round] + next.rounds == rounds + ([round] + next.rounds);
  }

  /**
   * `bulkDownloadToJson`: ensure the asset directory, then the
   * `do … while (endCursor)` loop. Besides the rounds, it returns the trace
   * of its effects in the order they happen: the directory, then each
   * request, the export of its page and the progress call. The loop logs
   * its own effects in `events`, which follow the directory in the trace.
   */
  method BulkDownloadToJson(service: Service, params: BulkDownloadParams, uuid: nat -> string, fuel: nat)
    returns (run: Run, trace: seq<Event>)
    ensures run == Download(service, params, fuel)
    ensures trace == DownloadTrace(run)
  {
    var endCursor: Option<string> := None;
    var assetCount: nat := 0;
    var files: nat := 0;
    var left := fuel;
    var assetPath := AssetPath(params);
    trace := [EnsureDirectory(assetPath)];
    var rounds: seq<Round> := [];
    var events: seq<Event> := [];
    var outcome: Outcome;
    ghost var target := FetchFrom(service, params, None, 0, 0, fuel);
    assert [] + target.rounds == target.rounds;
    while true
      invariant Remaining(service, params, target, rounds, endCursor, assetCount, files, left)
      invariant events == Trace(rounds)
      decreases left
    {
      var request := RequestPath(params, endCursor);
      ghost var events0 := events;
      events := events + [Request(request)];
      if request !in service {
        LoopFails(service, params, target, rounds, endCursor, assetCount, files, left);
        outcome := RequestFailed(request);
        break;
      }
      var data := service[request];
      var writes := ExportAssetGroupToJson(assetPath, data.items, uuid, files);
      events := events + [Export(data.items, files)];
      var round := Round(request, data, files, assetCount + |data.items|);
      ghost var rounds0, cursor0, count0, files0 := rounds, endCursor, assetCount, files;
      files := files + |writes|;
      endCursor := data.endCursor;
      assetCount := assetCount + |data.items|;
      events := events + [Progress(assetCount)];
      LoopTrace(rounds, events0, round);
      rounds := rounds + [round];
      if !Truthy(endCursor) {
        LoopEnds(service, params, target, rounds0, cursor0, count0, files0, left, round);
        outcome := Completed;
        break;
      }
      if left == 0 {
        LoopEnds(service, params, target, rounds0, cursor0, count0, files0, left, round);
        outcome := OutOfFuel;
        break;
      }
      LoopContinues(service, params, target, rounds0, cursor0, count0, files0, left, round);
      left := left - 1;
    }
    run := Run(assetPath, rounds, outcome);
    TraceOfRun(run, trace, events);
    trace := trace + events;
  }

  /** The directory event followed by what the loop logged is the trace of the run. */
  lemma TraceOfRun(run: Run, head: seq<Event>, events: seq<Event>)
    requires head == [EnsureDirectory(run.directory)]
    requires !run.outcome.RequestFailed? ==> events == Trace(run.rounds)
    requires run.outcome.RequestFailed? ==> events == Trace(run.rounds) + [Request(run.outcome.request)]
    ensures head + events == DownloadTrace(run)
  {
    if run.outcome.RequestFailed? {
      assert head + (Trace(run.rounds) + [Request(run.outcome.request)])
          == head + Trace(run.rounds) + [Request(run.outcome.request)];
    }
  }

  // ----- what a download does ------------------------------------------------------

  /** The number of items in a sequence of rounds. */
  function ItemCount(rounds: seq<Round>): nat
  {
    if rounds == [] then 0 else ItemCount(rounds[..|rounds| - 1]) + |rounds[|rounds| - 1].page.items|
  }

  /** The number of files written in a sequence of rounds. */
  function FileTotal(rounds: seq<Round>): nat
  {
    if rounds == [] then 0 else FileTotal(rounds[..|rounds| - 1]) + FileCount(rounds[|rounds| - 1].page.items)
  }

  /** The items of a sequence of rounds, page after page. */
  function AllItems(rounds: seq<Round>): seq<Asset>
  {
    if rounds == [] then [] else AllItems(rounds[..|rounds| - 1]) + rounds[|rounds| - 1].page.items
  }

  lemma {:induction false} ItemCountCons(round: Round, rounds: seq<Round>)
    ensures ItemCount([round] + rounds) == |round.page.items| + ItemCount(rounds)
    decreases |rounds|
  {
    if rounds != [] {
      assert ([round] + rounds)[..|rounds|] == [round] + rounds[..|rounds| - 1];
      ItemCountCons(round, rounds[..|rounds| - 1]);
    } else {
      assert ([round] + rounds)[..0] == [];
    }
  }

  lemma {:induction false} FileTotalCons(round: Round, rounds: seq<Round>)
    ensures FileTotal([round] + rounds) == FileCount(round.page.items) + FileTotal(rounds)
    decreases |rounds|
  {
    if rounds != [] {
      assert ([round] + rounds)[..|rounds|] == [round] + rounds[..|rounds| - 1];
      FileTotalCons(round, rounds[..|rounds| - 1]);
    } else {
      assert ([round] + rounds)[..0] == [];
    }
  }

  /** The cursor the i-th request carries: `cursor` for the first, then the previous page's. */
  function CursorBefore(cursor: Option<string>, rounds: seq<Round>, i: nat): Option<string>
    requires i <= |rounds|
  {
    if i == 0 then cursor else rounds[i - 1].page.endCursor
  }

  /**
   * Each round asks with the cursor of the round before it (the first with
   * `cursor`) and holds the page the service answers to that request.
   */
  predicate Answered(service: Service, params: BulkDownloadParams, cursor: Option<string>, rounds: seq<Round>)
    decreases |rounds|
  {
    rounds != [] ==>
      && rounds[0].request == RequestPath(params, cursor)
      && rounds[0].request in service && rounds[0].page == service[rounds[0].request]
      && Answered(service, params, rounds[0].page.endCursor, rounds[1..])
  }

  /** Every round but the last ended with a cursor. */
  predicate Continued(rounds: seq<Round>)
    decreases |rounds|
  {
    |rounds| > 1 ==> Truthy(rounds[0].page.endCursor) && Continued(rounds[1..])
  }

  /** Each round reports the items counted before it plus the items of its page. */
  predicate Counted(assetCount: nat, rounds: seq<Round>)
    decreases |rounds|
  {
    rounds != [] ==>
      rounds[0].progress == assetCount + |rounds[0].page.items| && Counted(rounds[0].progress, rounds[1..])
  }

  /** Each round numbers its files on from the files written before it. */
  predicate Numbered(files: nat, rounds: seq<Round>)
    decreases |rounds|
  {
    rounds != [] ==>
      rounds[0].firstFile == files && Numbered(files + FileCount(rounds[0].page.items), rounds[1..])
  }

  /** How the paging ended, in terms of the cursor after the last round. */
  predicate EndedAs(service: Service, params: BulkDownloadParams, cursor: Option<string>, fuel: nat, p: Pagination)
  {
    var after := CursorBefore(cursor, p.rounds, |p.rounds|);
    && |p.rounds| <= fuel + 1
    && (p.outcome.Completed? ==> p.rounds != [] && !Truthy(after))
    && (p.outcome.OutOfFuel? ==> |p.rounds| == fuel + 1 && Truthy(after))
    && (p.outcome.RequestFailed? ==>
          && p.outcome.request == RequestPath(params, after) && p.outcome.request !in service
          && |p.rounds| <= fuel && (p.rounds == [] || Truthy(after)))
  }

  /** The facts `FetchFacts` states, for the paging `p` from `cursor` on. */
  predicate PagingFacts(service: Service, params: BulkDownloadParams, cursor: Option<string>,
                        assetCount: nat, files: nat, fuel: nat, p: Pagination)
  {
    && Answered(service, params, cursor, p.rounds)
    && Continued(p.rounds)
    && Counted(assetCount, p.rounds)
    && Numbered(files, p.rounds)
    && EndedAs(service, params, cursor, fuel, p)
  }

  /** A round answered by the service, followed by the paging from its cursor on. */
  lemma PagingCons(service: Service, params: BulkDownloadParams, cursor: Option<string>,
                   assetCount: nat, files: nat, fuel: nat, next: Pagination)
    requires RequestPath(params, cursor) in service
    requires Truthy(service[RequestPath(params, cursor)].endCursor) && fuel > 0
    requires var page := service[RequestPath(params, cursor)];
      PagingFacts(service, params, page.endCursor, assetCount + |page.items|, files + FileCount(page.items), fuel - 1, next)
    ensures var page := service[RequestPath(params, cursor)];
      var round := Round(RequestPath(params, cursor), page, files, assetCount + |page.items|);
      PagingFacts(service, params, cursor, assetCount, files, fuel, Pagination([round] + next.rounds, next.outcome))
  {
    var request := RequestPath(params, cursor);
    var page := service[request];
    var round := Round(request, page, files, assetCount + |page.items|);
    var r := [round] + next.rounds;
    assert r[0] == round && r[1..] == next.rounds;
    assert CursorBefore(cursor, r, |r|) == CursorBefore(page.endCursor, next.rounds, |next.rounds|);
  }

  /** A round answered by the service that ends the paging. */
  lemma PagingLast(service: Service, params: BulkDownloadParams, cursor: Option<string>,
                   assetCount: nat, files: nat, fuel: nat, round: Round, outcome: Outcome)
    requires RequestPath(params, cursor) in service
    requires round == Round(RequestPath(params, cursor), service[RequestPath(params, cursor)],
                            files, assetCount + |service[RequestPath(params, cursor)].items|)
    requires outcome == if !Truthy(round.page.endCursor) then Completed else OutOfFuel
    requires Truthy(round.page.endCursor) ==> fuel == 0
    ensures PagingFacts(service, params, cursor, assetCount, files, fuel, Pagination([round], outcome))
  {
    assert [round][1..] == [];
  }

  /** The answers and requests of `Answered`, round by round. */
  lemma {:induction false} AnsweredMeans(service: Service, params: BulkDownloadParams,
                                         cursor: Option<string>, rounds: seq<Round>)
    requires Answered(service, params, cursor, rounds)
    ensures rounds != [] ==> rounds[0].request == RequestPath(params, cursor)
    ensures forall i :: 0 <= i < |rounds| - 1 ==> rounds[i + 1].request == RequestPath(params, rounds[i].page.endCursor)
    ensures forall i :: 0 <= i < |rounds| ==> rounds[i].request in service && rounds[i].page == service[rounds[i].request]
    decreases |rounds|
  {
    if rounds != [] {
      var rest := rounds[1..];
      AnsweredMeans(service, params, rounds[0].page.endCursor, rest);
      forall i | 0 <= i < |rounds| - 1
        ensures rounds[i + 1].request == RequestPath(params, rounds[i].page.endCursor)
      {
        if i > 0 {
          assert rounds[i + 1] == rest[i] && rounds[i] == rest[i - 1];
        } else {
          assert rounds[1] == rest[0];
        }
      }
      forall i | 0 < i < |rounds| ensures rounds[i].request in service && rounds[i].page == service[rounds[i].request] {
        assert rounds[i] == rest[i - 1];
      }
    }
  }

  /** The continuation of `Continued`, round by round. */
  lemma {:induction false} ContinuedMeans(rounds: seq<Round>)
    requires Continued(rounds)
    ensures forall i :: 0 <= i < |rounds| - 1 ==> Truthy(rounds[i].page.endCursor)
    decreases |rounds|
  {
    if |rounds| > 1 {
      ContinuedMeans(rounds[1..]);
      forall i | 0 < i < |rounds| - 1 ensures Truthy(rounds[i].page.endCursor) {
        assert rounds[i] == rounds[1..][i - 1];
      }
    }
  }

  /** Under `Counted`, each round reports the running total of items. */
  lemma {:induction false} CountedMeans(assetCount: nat, rounds: seq<Round>)
    requires Counted(assetCount, rounds)
    ensures forall i :: 0 <= i < |rounds| ==> rounds[i].progress == assetCount + ItemCount(rounds[..i + 1])
    decreases |rounds|
  {
    if rounds != [] {
      var rest := rounds[1..];
      CountedMeans(rounds[0].progress, rest);
      forall i | 0 <= i < |rounds| ensures rounds[i].progress == assetCount + ItemCount(rounds[..i + 1]) {
        assert rounds[..i + 1] == [rounds[0]] + rest[..i];
        ItemCountCons(rounds[0], rest[..i]);
        if i > 0 {
          assert rounds[i] == rest[i - 1];
        } else {
          assert rest[..0] == [];
        }
      }
    }
  }

  /** Under `Counted`, progress never decreases. */
  lemma {:induction false} CountedGrows(assetCount: nat, rounds: seq<Round>)
    requires Counted(assetCount, rounds)
    ensures forall i, j :: 0 <= i <= j < |rounds| ==> assetCount <= rounds[i].progress <= rounds[j].progress
    decreases |rounds|
  {
    if rounds != [] {
      var rest := rounds[1..];
      CountedGrows(rounds[0].progress, rest);
      forall i, j | 0 <= i <= j < |rounds| ensures assetCount <= rounds[i].progress <= rounds[j].progress {
        if j > 0 {
          assert rounds[j] == rest[j - 1];
          if i > 0 {
            assert rounds[i] == rest[i - 1];
          }
        }
      }
    }
  }

  /** Under `Numbered`, each round numbers its files after all files written before it. */
  lemma {:induction false} NumberedMeans(files: nat, rounds: seq<Round>)
    requires Numbered(files, rounds)
    ensures forall i :: 0 <= i < |rounds| ==> rounds[i].firstFile == files + FileTotal(rounds[..i])
    decreases |rounds|
  {
    if rounds != [] {
      var rest := rounds[1..];
      NumberedMeans(files + FileCount(rounds[0].page.items), rest);
      forall i | 0 <= i < |rounds| ensures rounds[i].firstFile == files + FileTotal(rounds[..i]) {
        if i > 0 {
          assert rounds[..i] == [rounds[0]] + rest[..i - 1];
          FileTotalCons(rounds[0], rest[..i - 1]);
          assert rounds[i] == rest[i - 1];
        } else {
          assert rounds[..0] == [];
        }
      }
    }
  }

  /**
   * The paging from `cursor` on: each round asks with the cursor before it
   * and holds the service's page; every round but the last ended with a
   * cursor; progress is the running item total and files are numbered on
   * from `files`; and the paging ends as `EndedAs` says.
   */
  lemma {:induction false} FetchFacts(service: Service, params: BulkDownloadParams,
                                      cursor: Option<string>, assetCount: nat, files: nat, fuel: nat)
    ensures PagingFacts(service, params, cursor, assetCount, files, fuel,
                        FetchFrom(service, params, cursor, assetCount, files, fuel))
    decreases fuel
  {
    var request := RequestPath(params, cursor);
    if request in service && Truthy(service[request].endCursor) && fuel > 0 {
      var page := service[request];
      var round := Round(request, page, files, assetCount + |page.items|);
      var next := FetchFrom(service, params, page.endCursor, assetCount + |page.items|, files + FileCount(page.items), fuel - 1);
      FetchFacts(service, params, page.endCursor, assetCount + |page.items|, files + FileCount(page.items), fuel - 1);
      PagingCons(service, params, cursor, assetCount, files, fuel, next);
      FetchContinues(service, params, cursor, assetCount, files, fuel);
      assert FetchFrom(service, params, cursor, assetCount, files, fuel) == Pagination([round] + next.rounds, next.outcome);
    } else {
      FetchEnds(service, params, cursor, assetCount, files, fuel);
    }
  }

  /** `FetchFacts` for a paging that ends with its first request. */
  lemma FetchEnds(service: Service, params: BulkDownloadParams,
                  cursor: Option<string>, assetCount: nat, files: nat, fuel: nat)
    requires RequestPath(params, cursor) in service ==> !Truthy(service[RequestPath(params, cursor)].endCursor) || fuel == 0
    ensures PagingFacts(service, params, cursor, assetCount, files, fuel,
                        FetchFrom(service, params, cursor, assetCount, files, fuel))
  {
    var request := RequestPath(params, cursor);
    if request in service {
      var page := service[request];
      var round := Round(request, page, files, assetCount + |page.items|);
      var outcome := if !Truthy(page.endCursor) then Completed else OutOfFuel;
      PagingLast(service, params, cursor, assetCount, files, fuel, round, outcome);
      assert FetchFrom(service, params, cursor, assetCount, files, fuel) == Pagination([round], outcome);
    } else {
      assert FetchFrom(service, params, cursor, assetCount, files, fuel) == Pagination([], RequestFailed(request));
    }
  }

  /**
   * The requests of a download: at least one is made; the first carries no
   * cursor; each later one carries exactly the cursor of the page before,
   * which was a non-empty string; and a completed download stopped at a page
   * without one.
   */
  lemma DownloadRequests(service: Service, params: BulkDownloadParams, fuel: nat)
    ensures Download(service, params, fuel).rounds == [] ==>
      Download(service, params, fuel).outcome == RequestFailed(RequestBase(params))
    ensures Download(service, params, fuel).rounds != [] ==>
      Download(service, params, fuel).rounds[0].request == RequestBase(params)
    ensures forall i :: 0 <= i < |Download(service, params, fuel).rounds| - 1 ==>
      Truthy(Download(service, params, fuel).rounds[i].page.endCursor) &&
      Download(service, params, fuel).rounds[i + 1].request
        == RequestBase(params) + "&cursor=" + Download(service, params, fuel).rounds[i].page.endCursor.value
    ensures forall i :: 0 <= i < |Download(service, params, fuel).rounds| ==>
      Download(service, params, fuel).rounds[i].request in service &&
      Download(service, params, fuel).rounds[i].page == service[Download(service, params, fuel).rounds[i].request]
    ensures Download(service, params, fuel).outcome.Completed? ==>
      var rounds := Download(service, params, fuel).rounds;
      rounds != [] && !Truthy(rounds[|rounds| - 1].page.endCursor)
  {
    FetchFacts(service, params, None, 0, 0, fuel);
    var rounds := Download(service, params, fuel).rounds;
    AnsweredMeans(service, params, None, rounds);
    ContinuedMeans(rounds);
  }

  /**
   * The progress values of a download: the i-th is the number of items on the
   * first i+1 pages, they never decrease, and the last is the number of all
   * items fetched.
   */
  lemma DownloadProgress(service: Service, params: BulkDownloadParams, fuel: nat)
    ensures forall i :: 0 <= i < |Download(service, params, fuel).rounds| ==>
      Download(service, params, fuel).rounds[i].progress == ItemCount(Download(service, params, fuel).rounds[..i + 1])
    ensures forall i, j :: 0 <= i <= j < |Download(service, params, fuel).rounds| ==>
      Download(service, params, fuel).rounds[i].progress <= Download(service, params, fuel).rounds[j].progress
    ensures Download(service, params, fuel).rounds != [] ==>
      var rounds := Download(service, params, fuel).rounds;
      rounds[|rounds| - 1].progress == ItemCount(rounds)
  {
    FetchFacts(service, params, None, 0, 0, fuel);
    var rounds := Download(service, params, fuel).rounds;
    CountedMeans(0, rounds);
    CountedGrows(0, rounds);
    if rounds != [] {
      assert rounds[..|rounds|] == rounds;
    }
  }

  lemma PlacedAppend(a: seq<FileWrite>, b: seq<FileWrite>, assetPath: Path, uuid: nat -> string, first: nat)
    requires PlacedFrom(a, assetPath, uuid, first) && PlacedFrom(b, assetPath, uuid, first + |a|)
    ensures PlacedFrom(a + b, assetPath, uuid, first)
  {
    forall j | |a| <= j < |a + b| ensures Placed((a + b)[j], assetPath, uuid(first + j)) {
      assert (a + b)[j] == b[j - |a|];
    }
  }

  /** The files of a round followed by those of the rounds after it. */
  lemma AllWritesCons(params: BulkDownloadParams, uuid: nat -> string, round: Round, rest: seq<Round>)
    ensures AllWrites(params, uuid, [round] + rest) == RoundWrites(params, uuid, round) + AllWrites(params, uuid, rest)
  {
    var f := r => RoundWrites(params, uuid, r);
    AllWritesIsFlatMap(params, uuid, [round] + rest);
    AllWritesIsFlatMap(params, uuid, rest);
    FlatMapAppend(f, [round], rest);
    assert [round][..0] == [];
  }

  /** The files of some rounds are the files of each round, one round after the other. */
  lemma {:induction false} AllWritesIsFlatMap(params: BulkDownloadParams, uuid: nat -> string, rounds: seq<Round>)
    ensures AllWrites(params, uuid, rounds) == FlatMap(r => RoundWrites(params, uuid, r), rounds)
    decreases |rounds|
  {
    if rounds != [] {
      AllWritesIsFlatMap(params, uuid, rounds[..|rounds| - 1]);
    }
  }

  /** One file per distinct type of each page. */
  lemma {:induction false} AllWritesCount(params: BulkDownloadParams, uuid: nat -> string, rounds: seq<Round>)
    ensures |AllWrites(params, uuid, rounds)| == FileTotal(rounds)
    decreases |rounds|
  {
    if rounds != [] {
      AllWritesCount(params, uuid, rounds[..|rounds| - 1]);
    }
  }

  /** The files of rounds numbered from `files` on are placed, file by file, with the oracle's answers from `files` on. */
  lemma {:induction false} AllWritesPlaced(params: BulkDownloadParams, uuid: nat -> string, rounds: seq<Round>, files: nat)
    requires Numbered(files, rounds)
    ensures PlacedFrom(AllWrites(params, uuid, rounds), AssetPath(params), uuid, files)
    decreases |rounds|
  {
    if rounds != [] {
      var round := rounds[0];
      var rest := rounds[1..];
      assert [round] + rest == rounds;
      AllWritesPlaced(params, uuid, rest, files + FileCount(round.page.items));
      AllWritesCons(params, uuid, round, rest);
      ExportPlacesFiles(AssetPath(params), round.page.items, uuid, files);
      PlacedAppend(RoundWrites(params, uuid, round), AllWrites(params, uuid, rest), AssetPath(params), uuid, files);
    }
  }

  /** Distinct answers of the oracle. */
  ghost predicate Fresh(uuid: nat -> string)
  {
    forall i, j :: 0 <= i < j ==> uuid(i) != uuid(j)
  }

  lemma SuffixCancels(a: string, b: string, suffix: string)
    ensures a + suffix == b + suffix ==> a == b
  {
    if a + suffix == b + suffix {
      assert a == (a + suffix)[..|a|];
      assert b == (b + suffix)[..|b|];
    }
  }

  /** Files named by distinct answers of the oracle have distinct paths. */
  lemma PlacedPathsDistinct(writes: seq<FileWrite>, assetPath: Path, uuid: nat -> string)
    requires PlacedFrom(writes, assetPath, uuid, 0) && Fresh(uuid)
    ensures forall j1, j2 :: 0 <= j1 < j2 < |writes| ==> writes[j1].path != writes[j2].path
  {
    forall j1, j2 | 0 <= j1 < j2 < |writes| ensures writes[j1].path != writes[j2].path {
      var n1, n2 := uuid(j1) + ".json", uuid(j2) + ".json";
      assert writes[j1].path[|assetPath| + 1] == n1 && writes[j2].path[|assetPath| + 1] == n2;
      assert uuid(0 + j1) != uuid(0 + j2);
      SuffixCancels(uuid(j1), uuid(j2), ".json");
    }
  }

  /**
   * The files of a download lie under its asset directory (the one
   * `DirectoryEnsuredFirst` shows is ensured before the first request), each
   * in the folder of its items' type, the j-th named by the oracle's j-th
   * answer; with fresh answers, no file is written twice.
   */
  lemma DownloadFiles(service: Service, params: BulkDownloadParams, uuid: nat -> string, fuel: nat)
    ensures Download(service, params, fuel).directory == [params.storageDirectory, "json", AssetTypeName(params.assetType)]
    ensures |AllWrites(params, uuid, Download(service, params, fuel).rounds)| == FileTotal(Download(service, params, fuel).rounds)
    ensures PlacedFrom(AllWrites(params, uuid, Download(service, params, fuel).rounds),
                       Download(service, params, fuel).directory, uuid, 0)
    ensures Fresh(uuid) ==>
      forall j1, j2 :: 0 <= j1 < j2 < |AllWrites(params, uuid, Download(service, params, fuel).rounds)| ==>
        AllWrites(params, uuid, Download(service, params, fuel).rounds)[j1].path
          != AllWrites(params, uuid, Download(service, params, fuel).rounds)[j2].path
  {
    var rounds := Download(service, params, fuel).rounds;
    FetchFacts(service, params, None, 0, 0, fuel);
    AllWritesCount(params, uuid, rounds);
    AllWritesPlaced(params, uuid, rounds, 0);
    if Fresh(uuid) {
      PlacedPathsDistinct(AllWrites(params, uuid, rounds), AssetPath(params), uuid);
    }
  }

  /** The contents of two logs of files, one after the other. */
  lemma {:induction false} WrittenItemsAppend(a: seq<FileWrite>, b: seq<FileWrite>)
    ensures WrittenItems(a + b) == WrittenItems(a) + WrittenItems(b)
  {
    if a != [] {
      assert (a + b)[1..] == a[1..] + b;
      WrittenItemsAppend(a[1..], b);
    } else {
      assert a + b == b;
    }
  }

  /** Every item fetched is written, as often as it was fetched, and nothing else is. */
  lemma {:induction false} AllWritesHoldAllItems(params: BulkDownloadParams, uuid: nat -> string, rounds: seq<Round>)
    ensures multiset(WrittenItems(AllWrites(params, uuid, rounds))) == multiset(AllItems(rounds))
    decreases |rounds|
  {
    if rounds != [] {
      var init := rounds[..|rounds| - 1];
      var last := rounds[|rounds| - 1];
      AllWritesHoldAllItems(params, uuid, init);
      WrittenItemsAppend(AllWrites(params, uuid, init), RoundWrites(params, uuid, last));
      ExportWritesWholePage(AssetPath(params), last.page.items, uuid, last.firstFile);
    }
  }

  /**
   * A cursor whose page answers with the same cursor again keeps the loop
   * going for as long as there is fuel: such a download never completes.
   */
  lemma {:induction false} RepeatingCursorNeverCompletes(service: Service, params: BulkDownloadParams,
                                                         cursor: string, assetCount: nat, files: nat, fuel: nat)
    requires cursor != ""
    requires RequestPath(params, Some(cursor)) in service
    requires service[RequestPath(params, Some(cursor))].endCursor == Some(cursor)
    ensures FetchFrom(service, params, Some(cursor), assetCount, files, fuel).outcome == OutOfFuel
    ensures |FetchFrom(service, params, Some(cursor), assetCount, files, fuel).rounds| == fuel + 1
    decreases fuel
  {
    if fuel > 0 {
      var page := service[RequestPath(params, Some(cursor))];
      RepeatingCursorNeverCompletes(service, params, cursor, assetCount + |page.items|,
                                    files + FileCount(page.items), fuel - 1);
    }
  }

  /** A paging that ends before its fuel runs out ends the same way, with the same rounds, given more fuel. */
  lemma {:induction false} MoreFuelSamePaging(service: Service, params: BulkDownloadParams, cursor: Option<string>,
                                              assetCount: nat, files: nat, fuel: nat, more: nat)
    requires fuel <= more
    requires FetchFrom(service, params, cursor, assetCount, files, fuel).outcome != OutOfFuel
    ensures FetchFrom(service, params, cursor, assetCount, files, more)
         == FetchFrom(service, params, cursor, assetCount, files, fuel)
    decreases fuel
  {
    var request := RequestPath(params, cursor);
    if request in service && Truthy(service[request].endCursor) {
      var page := service[request];
      MoreFuelSamePaging(service, params, page.endCursor, assetCount + |page.items|,
                         files + FileCount(page.items), fuel - 1, more - 1);
    }
  }

  /** A download that completes, or stops at a request the service does not answer, is the same with more fuel. */
  lemma DownloadIgnoresSpareFuel(service: Service, params: BulkDownloadParams, fuel: nat, more: nat)
    requires fuel <= more
    requires Download(service, params, fuel).outcome != OutOfFuel
    ensures Download(service, params, more) == Download(service, params, fuel)
  {
    MoreFuelSamePaging(service, params, None, 0, 0, fuel, more);
  }

  // ----- the order of effects --------------------------------------------------

  /**
   * Each round leaves three events in the trace, at positions 3i, 3i+1 and
   * 3i+2: its request, the export of its page and its progress call.
   */
  lemma {:induction false} TraceShape(rounds: seq<Round>)
    ensures |Trace(rounds)| == 3 * |rounds|
    ensures forall i :: 0 <= i < |rounds| ==>
      Trace(rounds)[3 * i] == Request(rounds[i].request) &&
      Trace(rounds)[3 * i + 1] == Export(rounds[i].page.items, rounds[i].firstFile) &&
      Trace(rounds)[3 * i + 2] == Progress(rounds[i].progress)
    decreases |rounds|
  {
    if rounds != [] {
      var init := rounds[..|rounds| - 1];
      TraceShape(init);
      assert forall i :: 0 <= i < |init| ==> init[i] == rounds[i];
    }
  }

  /** The requests of a trace are exactly its events at positions 3i: between two requests lie one export and one progress call. */
  lemma RequestsEveryThird(rounds: seq<Round>)
    ensures forall k :: 0 <= k < |Trace(rounds)| ==> (Trace(rounds)[k].Request? <==> k % 3 == 0)
  {
    TraceShape(rounds);
    forall k | 0 <= k < |Trace(rounds)| ensures Trace(rounds)[k].Request? <==> k % 3 == 0 {
      var i := k / 3;
      assert k == 3 * i + k % 3 && 0 <= i < |rounds|;
    }
  }

  /** FlatMap of two sequences, one after the other. */
  lemma {:induction false} FlatMapAppend<T, U>(f: T -> seq<U>, a: seq<T>, b: seq<T>)
    ensures FlatMap(f, a + b) == FlatMap(f, a) + FlatMap(f, b)
    decreases |b|
  {
    if b == [] {
      assert a + b == a;
    } else {
      var init, last := b[..|b| - 1], b[|b| - 1];
      assert (a + b)[..|a + b| - 1] == a + init && (a + b)[|a + b| - 1] == last;
      FlatMapAppend(f, a, init);
    }
  }

  /** Between the request and the progress call of a round, its export writes exactly the files of the round. */
  lemma RoundEventsWrite(params: BulkDownloadParams, uuid: nat -> string, round: Round)
    ensures TraceWrites(params, uuid, RoundEvents(round)) == RoundWrites(params, uuid, round)
  {
    var events := RoundEvents(round);
    var f := e => EventWrites(params, uuid, e);
    assert events[..2][..1] == [events[0]] && [events[0]][..0] == [];
    calc {
      FlatMap(f, events);
      FlatMap(f, events[..2]) + f(events[2]);
      FlatMap(f, [events[0]]) + f(events[1]) + [];
      [] + [] + RoundWrites(params, uuid, round) + [];
    }
  }

  /**
   * The files the events of a download write are those of its rounds, in the
   * order of the rounds; a request that is not answered writes nothing.
   */
  lemma {:induction false} TraceWritesAreAllWrites(params: BulkDownloadParams, uuid: nat -> string, rounds: seq<Round>)
    ensures TraceWrites(params, uuid, Trace(rounds)) == AllWrites(params, uuid, rounds)
    ensures forall request :: TraceWrites(params, uuid, Trace(rounds) + [Request(request)]) == AllWrites(params, uuid, rounds)
    decreases |rounds|
  {
    if rounds != [] {
      var init := rounds[..|rounds| - 1];
      TraceWritesAreAllWrites(params, uuid, init);
      FlatMapAppend(e => EventWrites(params, uuid, e), Trace(init), RoundEvents(rounds[|rounds| - 1]));
      RoundEventsWrite(params, uuid, rounds[|rounds| - 1]);
    }
    forall request ensures TraceWrites(params, uuid, Trace(rounds) + [Request(request)]) == AllWrites(params, uuid, rounds) {
      FlatMapAppend(e => EventWrites(params, uuid, e), Trace(rounds), [Request(request)]);
      assert [Request(request)][..0] == [];
    }
  }

  /**
   * The i-th round's events: its request, the export that writes exactly its
   * files, its progress call, and then the next round's request.
   */
  lemma RoundEffects(params: BulkDownloadParams, uuid: nat -> string, rounds: seq<Round>, i: nat)
    requires i < |rounds|
    ensures |Trace(rounds)| == 3 * |rounds|
    ensures Trace(rounds)[3 * i] == Request(rounds[i].request)
    ensures EventWrites(params, uuid, Trace(rounds)[3 * i + 1]) == RoundWrites(params, uuid, rounds[i])
    ensures Trace(rounds)[3 * i + 2] == Progress(rounds[i].progress)
    ensures i + 1 < |rounds| ==> Trace(rounds)[3 * i + 3] == Request(rounds[i + 1].request)
  {
    TraceShape(rounds);
    if i + 1 < |rounds| {
      assert 3 * i + 3 == 3 * (i + 1);
    }
  }

  /**
   * After the directory, the i-th round of a download is its i-th request,
   * then the export that writes the files of its page, then the progress
   * call with the items of the first i+1 pages; the next event is the
   * request for the page's cursor.
   */
  lemma DownloadEffectsInOrder(service: Service, params: BulkDownloadParams, uuid: nat -> string, fuel: nat, i: nat)
    requires i < |Download(service, params, fuel).rounds|
    ensures var run := Download(service, params, fuel);
      var rounds, trace := run.rounds, DownloadTrace(run);
      |trace| > 3 * |rounds| &&
      trace[3 * i + 1] == Request(rounds[i].request) &&
      EventWrites(params, uuid, trace[3 * i + 2]) == RoundWrites(params, uuid, rounds[i]) &&
      trace[3 * i + 3] == Progress(ItemCount(rounds[..i + 1])) &&
      (i + 1 < |rounds| ==>
        Truthy(rounds[i].page.endCursor) &&
        trace[3 * i + 4] == Request(RequestBase(params) + "&cursor=" + rounds[i].page.endCursor.value))
  {
    var run := Download(service, params, fuel);
    var rounds := run.rounds;
    RoundEffects(params, uuid, rounds, i);
    DownloadTraceShifts(run);
    DownloadProgress(service, params, fuel);
    assert rounds[i].progress == ItemCount(rounds[..i + 1]);
    if i + 1 < |rounds| {
      DownloadRequests(service, params, fuel);
      assert rounds[i + 1].request == RequestBase(params) + "&cursor=" + rounds[i].page.endCursor.value;
    }
  }

  /** The rounds' events of a download follow its directory event, one position on. */
  lemma DownloadTraceShifts(run: Run)
    ensures |DownloadTrace(run)| == 1 + |Trace(run.rounds)| + (if run.outcome.RequestFailed? then 1 else 0)
    ensures DownloadTrace(run)[0] == EnsureDirectory(run.directory)
    ensures forall k :: 0 <= k < |Trace(run.rounds)| ==> DownloadTrace(run)[k + 1] == Trace(run.rounds)[k]
    ensures run.outcome.RequestFailed? ==>
      DownloadTrace(run)[|DownloadTrace(run)| - 1] == Request(run.outcome.request)
  {
  }

  /** No round ensures a directory: its events are a request, an export and a progress call. */
  lemma {:induction false} TraceHasNoDirectory(rounds: seq<Round>)
    ensures forall k :: 0 <= k < |Trace(rounds)| ==> !Trace(rounds)[k].EnsureDirectory?
    decreases |rounds|
  {
    if rounds != [] {
      TraceHasNoDirectory(rounds[..|rounds| - 1]);
    }
  }

  /**
   * A download ensures its asset directory as its first effect and never
   * again, so before its first request; every file it writes lies under
   * that directory.
   */
  lemma DirectoryEnsuredFirst(service: Service, params: BulkDownloadParams, uuid: nat -> string, fuel: nat)
    ensures var trace := DownloadTrace(Download(service, params, fuel));
      |trace| > 0 && trace[0] == EnsureDirectory(AssetPath(params)) &&
      (forall k :: 0 < k < |trace| ==> !trace[k].EnsureDirectory?) &&
      (forall k :: 0 <= k < |trace| && trace[k].Request? ==> 0 < k)
    ensures var trace := DownloadTrace(Download(service, params, fuel));
      var writes := TraceWrites(params, uuid, trace);
      writes == AllWrites(params, uuid, Download(service, params, fuel).rounds) &&
      forall j :: 0 <= j < |writes| ==> trace[0].directory <= writes[j].path
  {
    var run := Download(service, params, fuel);
    DirectoryEventOnce(run);
    RunTraceWrites(params, uuid, run);
    DownloadFiles(service, params, uuid, fuel);
    var writes := AllWrites(params, uuid, run.rounds);
    forall j | 0 <= j < |writes| ensures run.directory <= writes[j].path {
      assert Placed(writes[j], run.directory, uuid(j));
    }
  }

  /** The directory event of a run comes first and only once. */
  lemma DirectoryEventOnce(run: Run)
    ensures var trace := DownloadTrace(run);
      |trace| > 0 && trace[0] == EnsureDirectory(run.directory) &&
      (forall k :: 0 < k < |trace| ==> !trace[k].EnsureDirectory?)
  {
    var trace := DownloadTrace(run);
    DownloadTraceShifts(run);
    TraceHasNoDirectory(run.rounds);
    forall k | 0 < k < |trace| ensures !trace[k].EnsureDirectory? {
      if k - 1 < |Trace(run.rounds)| {
        assert trace[k] == Trace(run.rounds)[k - 1];
      }
    }
  }

  /** The files the effects of a run write are those of its rounds: the directory and a failed request write none. */
  lemma RunTraceWrites(params: BulkDownloadParams, uuid: nat -> string, run: Run)
    ensures TraceWrites(params, uuid, DownloadTrace(run)) == AllWrites(params, uuid, run.rounds)
  {
    var f := e => EventWrites(params, uuid, e);
    var head := [EnsureDirectory(run.directory)];
    FlatMapAppend(f, head, Trace(run.rounds));
    assert head[..0] == [];
    TraceWritesAreAllWrites(params, uuid, run.rounds);
    if run.outcome.RequestFailed? {
      var tail := [Request(run.outcome.request)];
      FlatMapAppend(f, head + Trace(run.rounds), tail);
      assert tail[..0] == [];
    } else {
      assert DownloadTrace(run) == head + Trace(run.rounds);
    }
  }

}
