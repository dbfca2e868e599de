/** The typed envelope of one public event. */
module Events {
  datatype Event = Event(
    id: string,
    kind: string,
    actorId: int,
    actorLogin: string,
    repoId: int,
    repoName: string,
    createdAt: int,
    payload: string)
}
