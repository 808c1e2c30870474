/** The analysis configuration the dashboard passes to the statistics engine. */
module Config {
  datatype Config = Config(
    gitlabApi: string,
    gitlabToken: string,
    groupId: string,
    startDate: string,
    endDate: string,
    projectsNum: nat,
    excludedProjects: seq<string>,
    validExtensions: seq<string>,
    maxConcurrentRequests: nat,
    ignoredPaths: seq<string>)
}
