/**
 * The director's records, as read from its store: a release with its
 * versions, each version with the job templates it provides and the
 * deployments that currently use it.
 */
module Models {

  datatype Template = Template(name: string)

  datatype ReleaseVersion = ReleaseVersion(
    version: string,
    commitHash: string,
    uncommittedChanges: bool,
    templates: seq<Template>,
    deployments: set<string>)

  datatype Release = Release(name: string, versions: seq<ReleaseVersion>)
}
