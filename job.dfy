/** The mutable job record that the scrapers fill in field by field and that
    the store, the run loop and the notification read back. */
module JobModel {

  import opened Values

  /** A snapshot of a `Job`'s six fields. */
  datatype JobRecord = JobRecord(
    reqId: JString,
    portalId: int,
    portalName: JString,
    position: JString,
    location: JString,
    jobUrl: JString)

  /** The record of a freshly built `Job()`: every string null and the portal id 0. */
  const Blank: JobRecord := JobRecord(None, 0, None, None, None, None)

  class Job {
    var reqId: JString
    var portalId: int
    var portalName: JString
    var position: JString
    var location: JString
    var jobUrl: JString

    /** The current values of the six fields. */
    function Record(): JobRecord
      reads this
    {
      JobRecord(reqId, portalId, portalName, position, location, jobUrl)
    }

    /** The no-argument constructor. */
    constructor ()
      ensures Record() == Blank
    {
      reqId, portalId, portalName := None, 0, None;
      position, location, jobUrl := None, None, None;
    }

    /** The all-arguments constructor: each argument lands in its own field. */
    constructor Of(reqId: JString, portalId: int, portalName: JString, position: JString,
                   location: JString, jobUrl: JString)
      ensures Record() == JobRecord(reqId, portalId, portalName, position, location, jobUrl)
    {
      this.reqId := reqId;
      this.portalId := portalId;
      this.portalName := portalName;
      this.position := position;
      this.location := location;
      this.jobUrl := jobUrl;
    }

    method SetReqId(v: JString)
      modifies this
      ensures Record() == old(Record()).(reqId := v)
    {
      reqId := v;
    }

    method SetPortalId(v: int)
      modifies this
      ensures Record() == old(Record()).(portalId := v)
    {
      portalId := v;
    }

    method SetPortalName(v: JString)
      modifies this
      ensures Record() == old(Record()).(portalName := v)
    {
      portalName := v;
    }

    method SetPosition(v: JString)
      modifies this
      ensures Record() == old(Record()).(position := v)
    {
      position := v;
    }

    method SetLocation(v: JString)
      modifies this
      ensures Record() == old(Record()).(location := v)
    {
      location := v;
    }

    method SetJobUrl(v: JString)
      modifies this
      ensures Record() == old(Record()).(jobUrl := v)
    {
      jobUrl := v;
    }
  }

  /** The records of a list of jobs, in list order. */
  function Records(js: seq<Job>): (rs: seq<JobRecord>)
    reads set j | j in js
    ensures |rs| == |js|
    ensures forall k {:trigger rs[k]} :: 0 <= k < |js| ==> rs[k] == js[k].Record()
  {
    if js == [] then [] else [js[0].Record()] + Records(js[1..])
  }

  /** The job an extractor gave, as a list: empty when it gave null. */
  function Found(r: Option<JobRecord>): seq<JobRecord> {
    if r.Some? then [r.value] else []
  }

  lemma RecordsAppend(a: seq<Job>, b: seq<Job>)
    ensures Records(a + b) == Records(a) + Records(b)
  {
  }
}
