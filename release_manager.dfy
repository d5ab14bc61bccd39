/**
 * The director's release manager: version resolution and the catalog, plus
 * the operations that hand upload and deletion work to the job queue. The
 * queue is not modelled; each of those operations yields the request it
 * would enqueue, and the queue's task handle is its answer to that request.
 */
module ReleaseManager {
  import opened Results
  import opened Models

  datatype Job = UpdateReleaseJob | DeleteReleaseJob

  /** The argument list a job is enqueued with. */
  datatype JobArgs =
    | RemoteRelease(url: string, remote: bool, rebase: bool, skipIfExists: bool)
    | LocalRelease(path: string, rebase: bool)
    | ReleaseDeletion(name: string, options: map<string, string>)

  /** One call of the job queue's enqueue. */
  datatype EnqueueRequest = EnqueueRequest(user: string, job: Job, description: string, args: JobArgs)

  datatype DirectorError = DirectorError(message: string)

  const FileNotFound := "Failed to create release: file not found"

  /** create_release_from_url: always enqueues an update job marked as remote. */
  function CreateReleaseFromUrl(user: string, url: string, rebase: bool, skipIfExists: bool): (q: EnqueueRequest)
    ensures q.user == user && q.job == UpdateReleaseJob && q.description == "create release"
    ensures q.args.RemoteRelease? && q.args.remote
    ensures q.args == RemoteRelease(url, true, rebase, skipIfExists)
  {
    EnqueueRequest(user, UpdateReleaseJob, "create release", RemoteRelease(url, true, rebase, skipIfExists))
  }

  /**
   * create_release_from_file_path: when the file is missing it fails with
   * a director error and enqueues nothing; otherwise it enqueues an update
   * job for the local file.
   */
  function CreateReleaseFromFilePath(fileExists: string -> bool, user: string, path: string, rebase: bool)
    : (r: Result<EnqueueRequest, DirectorError>)
    ensures r.Failure? <==> !fileExists(path)
    ensures r.Failure? ==> FileNotFound <= r.error.message
    ensures r.Success? ==> r.value == EnqueueRequest(user, UpdateReleaseJob, "create release", LocalRelease(path, rebase))
  {
    if !fileExists(path) then Failure(DirectorError(FileNotFound + " - " + path))
    else Success(EnqueueRequest(user, UpdateReleaseJob, "create release", LocalRelease(path, rebase)))
  }

  /** delete_release: always enqueues a deletion job keyed by the release name. */
  function DeleteRelease(user: string, release: Release, options: map<string, string>): (q: EnqueueRequest)
    ensures q.user == user && q.job == DeleteReleaseJob
    ensures q.description == "delete release: " + release.name
    ensures q.args == ReleaseDeletion(release.name, options)
  {
    EnqueueRequest(user, DeleteReleaseJob, "delete release: " + release.name, ReleaseDeletion(release.name, options))
  }
}
