/** The in-memory job table: the records written when an upload is accepted
    and when its background worker ends, the status and result lookups, and
    the periodic cleanup of old finished jobs. */
module Jobs {
  import opened Wrappers

  /** A job record. Each alternative carries exactly the keys of the record
      the service writes: `{'status': 'in_progress'}`,
      `{'status': 'completed', 'meme_image_path': ..., 'completed_time': ...}`
      and `{'status': 'failed', 'error': ...}`. */
  datatype Job =
    | InProgress
    | Completed(imagePath: string, completedTime: real)
    | Failed(error: string)

  /** The record's `'status'` value. */
  function StatusName(job: Job): string
  {
    match job
    case InProgress => "in_progress"
    case Completed(_, _) => "completed"
    case Failed(_) => "failed"
  }

  /** The record's `'completed_time'` value, if it has that key. */
  function CompletedTime(job: Job): Option<real>
  {
    match job
    case Completed(_, t) => Some(t)
    case _ => None
  }

  const UploadFolder: string := "/home/ubuntu/MemeGenBackend/uploads"
  const NoTextError: string := "Failed to generate meme text"

  /** Seconds a finished job is kept before the cleanup may remove it. */
  const GracePeriod: real := 3600.0

  /** Where the worker saves the captioned image of job `id` for an upload
      named `filename`: `meme_<filename>` in the job's own folder. */
  function OutputPath(id: string, filename: string): string
  {
    UploadFolder + "/" + id + "/" + "meme_" + filename
  }

  /** Each job's image has a path of its own: two jobs whose identifiers
      contain no `/` share an output path only if they are the same job with
      the same upload name. */
  lemma {:induction false} OutputPathExclusive(id1: string, filename1: string, id2: string, filename2: string)
    requires '/' !in id1 && '/' !in id2
    requires OutputPath(id1, filename1) == OutputPath(id2, filename2)
    ensures id1 == id2 && filename1 == filename2
  {
    var d := |UploadFolder + "/"|;
    var s1, s2 := OutputPath(id1, filename1), OutputPath(id2, filename2);
    assert s1 == (UploadFolder + "/") + id1 + "/" + "meme_" + filename1;
    assert s2 == (UploadFolder + "/") + id2 + "/" + "meme_" + filename2;
    assert s1[d + |id1|] == '/' && s2[d + |id2|] == '/';
    assert |id1| == |id2|;
    assert id1 == s1[d..d + |id1|] && id2 == s2[d..d + |id2|];
    var e := d + |id1| + |"/" + "meme_"|;
    assert filename1 == s1[e..] && filename2 == s2[e..];
  }

  /** Python truthiness of the generated caption: neither None nor empty. */
  predicate Truthy(memeText: Option<string>)
  {
    memeText.Some? && memeText.value != ""
  }

  /** The record the background worker writes for job `id` once it ends.
      `memeText` is what caption generation returned; `fault` is the message
      of an exception raised while overlaying or saving the image, if any;
      `now` is the clock reading at the time of the write. */
  function WorkerRecord(id: string, filename: string, memeText: Option<string>,
                        fault: Option<string>, now: real): (job: Job)
    ensures !job.InProgress?
    ensures job.Completed? <==> Truthy(memeText) && fault.None?
    ensures job.Completed? ==> job.imagePath == OutputPath(id, filename) && job.completedTime == now
    ensures !Truthy(memeText) ==> job == Failed(NoTextError)
    ensures Truthy(memeText) && fault.Some? ==> job == Failed(fault.value)
    ensures CompletedTime(job).Some? <==> job.Completed?
  {
    if Truthy(memeText) then
      if fault.Some? then Failed(fault.value)
      else Completed(OutputPath(id, filename), now)
    else
      Failed(NoTextError)
  }

  /** The cleanup test: status completed or failed, a `completed_time`, and
      more than an hour since it. Only completed records carry the time, so
      no failed record ever passes. */
  predicate Expired(job: Job, now: real)
    ensures Expired(job, now) <==> job.Completed? && now - job.completedTime > GracePeriod
  {
    && StatusName(job) in ["completed", "failed"]
    && CompletedTime(job).Some?
    && now - CompletedTime(job).value > GracePeriod
  }

  /** The identifiers the cleanup removes at time `now`. */
  function ExpiredIds(jobs: map<string, Job>, now: real): set<string>
  {
    set id | id in jobs && Expired(jobs[id], now)
  }

  /** The table after a cleanup at time `now`: exactly the expired records
      are gone and every other record is untouched. */
  function Reap(jobs: map<string, Job>, now: real): (after: map<string, Job>)
    ensures forall id :: id in after <==> id in jobs && !Expired(jobs[id], now)
    ensures forall id :: id in after ==> after[id] == jobs[id]
  {
    jobs - ExpiredIds(jobs, now)
  }

  /** In-progress and failed records survive every cleanup, whatever the
      time: failed jobs are never removed. */
  lemma {:induction false} UnfinishedAndFailedKept(jobs: map<string, Job>, now: real, id: string)
    requires id in jobs && !jobs[id].Completed?
    ensures id in Reap(jobs, now) && Reap(jobs, now)[id] == jobs[id]
  {
  }

  /** The grace period is strict: a completed job is removed one second after
      the hour has passed, and kept at exactly an hour or less. */
  lemma {:induction false} GraceBoundary(jobs: map<string, Job>, id: string, path: string, t: real)
    requires id in jobs && jobs[id] == Completed(path, t)
    ensures id !in Reap(jobs, t + GracePeriod + 1.0)
    ensures id in Reap(jobs, t + GracePeriod)
    ensures id in Reap(jobs, t + GracePeriod - 1.0)
  {
  }

  /** When the worker finishes before the upload handler records the job as
      in progress, the handler's write wins: the job is left in progress, and
      no later cleanup removes it. */
  lemma {:induction false} StartRaceStuck(jobs: map<string, Job>, id: string, filename: string,
                                          memeText: Option<string>, fault: Option<string>,
                                          finished: real, later: real)
    ensures var after := jobs[id := WorkerRecord(id, filename, memeText, fault, finished)][id := InProgress];
      && after[id] == InProgress
      && id in Reap(after, later) && Reap(after, later)[id] == InProgress
  {
    var after := jobs[id := WorkerRecord(id, filename, memeText, fault, finished)][id := InProgress];
    UnfinishedAndFailedKept(after, later, id);
  }

  /** A body of a JSON reply. */
  datatype Body =
    | StatusBody(status: string)      // {'status': ...}
    | RecordBody(job: Job)            // the whole job record
    | ErrorBody(error: string)        // {'error': ...}
    | ImageFile(path: string, mimetype: string)

  datatype Reply = Reply(code: int, body: Body)

  class JobRegistry {
    /** The `jobs` dictionary, keyed by job identifier. */
    var jobs: map<string, Job>

    constructor ()
      ensures jobs == map[]
    {
      jobs := map[];
    }

    /** The write made when an upload is accepted as job `id`. It replaces
        whatever record `id` had. */
    method Create(id: string)
      modifies this
      ensures jobs == old(jobs)[id := InProgress]
    {
      jobs := jobs[id := InProgress];
    }

    /** The worker's final write for job `id`: an unconditional overwrite,
        whatever the record held before. */
    method Finish(id: string, filename: string, memeText: Option<string>, fault: Option<string>, now: real)
      modifies this
      ensures jobs == old(jobs)[id := WorkerRecord(id, filename, memeText, fault, now)]
    {
      jobs := jobs[id := WorkerRecord(id, filename, memeText, fault, now)];
    }

    /** `get_status`: 404 for an unknown job; otherwise 200 with the record,
        except that a completed job shows only its status, never its image
        path. */
    function Status(id: string): (r: Reply)
      reads this
      ensures r.code == 404 <==> id !in jobs
      ensures r.code == 404 ==> r.body == ErrorBody("Job not found")
      ensures id in jobs ==> r.code == 200
      ensures id in jobs && jobs[id].Completed? ==> r.body == StatusBody("completed")
      ensures id in jobs && !jobs[id].Completed? ==> r.body == RecordBody(jobs[id])
      ensures r.body.RecordBody? ==> !r.body.job.Completed?
    {
      if id in jobs then
        var job := jobs[id];
        if StatusName(job) == "completed" then Reply(200, StatusBody("completed"))
        else Reply(200, RecordBody(job))
      else
        Reply(404, ErrorBody("Job not found"))
    }

    /** `get_result`: the image of a completed job whose file exists
        (`imageExists`); 404 if that file is missing; 202 for a known job that
        is not completed; 404 for an unknown job. */
    function Result(id: string, imageExists: bool): (r: Reply)
      reads this
      ensures r.body.ImageFile? <==> id in jobs && jobs[id].Completed? && imageExists
      ensures r.body.ImageFile? ==> r.code == 200 && r.body == ImageFile(jobs[id].imagePath, "image/jpeg")
      ensures r.code == 202 <==> id in jobs && !jobs[id].Completed?
      ensures r.code == 404 <==> id !in jobs || (jobs[id].Completed? && !imageExists)
    {
      if id in jobs && StatusName(jobs[id]) == "completed" then
        if imageExists then Reply(200, ImageFile(jobs[id].imagePath, "image/jpeg"))
        else Reply(404, ErrorBody("Meme image not found"))
      else if id in jobs then
        Reply(202, ErrorBody("Job is not completed"))
      else
        Reply(404, ErrorBody("Job not found"))
    }

    /** `cleanup_jobs_and_files`: collects the expired identifiers in one pass
        over the table, then deletes them. */
    method Cleanup(now: real)
      modifies this
      ensures jobs == Reap(old(jobs), now)
    {
      var toRemove: seq<string> := [];
      var pending := jobs.Keys;
      while pending != {}
        invariant jobs == old(jobs)
        invariant pending <= jobs.Keys
        invariant forall id :: id in toRemove <==> id in jobs && id !in pending && Expired(jobs[id], now)
        decreases pending
      {
        var id :| id in pending;
        if Expired(jobs[id], now) {
          toRemove := toRemove + [id];
        }
        pending := pending - {id};
      }
      var i := 0;
      while i < |toRemove|
        invariant 0 <= i <= |toRemove|
        invariant jobs == old(jobs) - (set id | id in toRemove[..i])
      {
        jobs := jobs - {toRemove[i]};
        i := i + 1;
      }
      assert toRemove[..i] == toRemove;
      assert (set id | id in toRemove) == ExpiredIds(old(jobs), now);
    }
  }
}
