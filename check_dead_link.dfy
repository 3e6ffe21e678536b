/** The dead-link checker of src/process/check_dead_link.rs. One probe task
    is spawned per `(url, id)` entry, then all of them are awaited in the order
    they were spawned. The HTTP GET of each probe is replaced by an oracle
    `probe(slot, url)` giving what the probe spawned at position
    `slot` observed, whenever it completed. */
module DeadLinkCheck {
  import opened Models

  /** What one GET probe observed: a transport failure, or an HTTP response
      with its status code. */
  datatype ProbeResult = TransportError | Response(status: int)

  /** reqwest's `StatusCode::is_success`: a 2xx status. */
  predicate IsSuccess(status: int) {
    200 <= status <= 299
  }

  /** A link is dead when the probe failed or the status is not 2xx. */
  predicate IsDead(p: ProbeResult) {
    p.TransportError? || !IsSuccess(p.status)
  }

  /** The value a probe task yields: its entry's id and whether the link is
      dead. */
  function Classify(id: i32, p: ProbeResult): (r: (i32, bool))
    ensures r.0 == id
    ensures r.1 <==> IsDead(p)
    ensures p.Response? && IsSuccess(p.status) ==> !r.1
  {
    match p
    case Response(status) => (id, !IsSuccess(status))
    case TransportError => (id, true)
  }

  /** A spawned probe task: its spawn position and the entry it checks. */
  datatype Task = Task(slot: nat, url: string, id: i32)

  /** Awaiting a task yields the classification of its own probe, however
      the probes' completions were ordered. */
  function Await(t: Task, probe: (nat, string) -> ProbeResult): (i32, bool) {
    Classify(t.id, probe(t.slot, t.url))
  }

  /** The report for a list of entries: entry `i` becomes its id and the
      classification of the `i`-th probe; the URL is dropped. */
  function LinkStatus(urlList: seq<(string, i32)>, probe: (nat, string) -> ProbeResult): (r: seq<(i32, bool)>)
    ensures |r| == |urlList|
    ensures forall i :: 0 <= i < |urlList| ==> r[i].0 == urlList[i].1 && (r[i].1 <==> IsDead(probe(i, urlList[i].0)))
  {
    var r := seq(|urlList|, i requires 0 <= i < |urlList| => Classify(urlList[i].1, probe(i, urlList[i].0)));
    assert forall i :: 0 <= i < |urlList| ==> r[i] == Classify(urlList[i].1, probe(i, urlList[i].0));
    r
  }

  /** `check_dead_link`: spawn one task per entry, then await them in spawn
      order. The result has one entry per input entry, in input order, with
      that entry's id and `true` exactly when its link is dead. */
  method CheckDeadLink(urlList: seq<(string, i32)>, probe: (nat, string) -> ProbeResult)
    returns (linkStatusList: seq<(i32, bool)>)
    ensures |linkStatusList| == |urlList|
    ensures forall i :: 0 <= i < |urlList| ==> linkStatusList[i].0 == urlList[i].1
    ensures forall i :: 0 <= i < |urlList| ==> (linkStatusList[i].1 <==> IsDead(probe(i, urlList[i].0)))
    ensures linkStatusList == LinkStatus(urlList, probe)
  {
    var tasks: seq<Task> := [];
    for k := 0 to |urlList|
      invariant |tasks| == k
      invariant forall j :: 0 <= j < k ==> tasks[j] == Task(j, urlList[j].0, urlList[j].1)
    {
      var (url, id) := urlList[k];
      tasks := tasks + [Task(k, url, id)];
    }
    linkStatusList := [];
    for k := 0 to |tasks|
      invariant |linkStatusList| == k
      invariant forall j :: 0 <= j < k ==> linkStatusList[j] == Await(tasks[j], probe)
    {
      var result := Await(tasks[k], probe);
      linkStatusList := linkStatusList + [result];
    }
  }
}
