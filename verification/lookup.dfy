/**
 The lookup client (`retrieve_user_id`): one username query against the
 remote user directory, resolved to the id of the first returned record.

 The remote service is not modelled: it is a `Directory` handed in by the
 caller, the list of user records the service returns for a username query
 made with a given access token. Treating it as a function fixes the answer
 to each query for the duration of one run.
 */
module Lookup {

  /** Rust's `u64`, the type of a user id in the deserialised response. */
  newtype u64 = x: int | 0 <= x < 0x1_0000_0000_0000_0000

  /** One user record of a response; only the `id` field is read. */
  datatype ProjectUser = ProjectUser(id: u64)

  datatype Option<T> = None | Some(value: T)

  /** The user records the remote service returns for `(token, username)`. */
  type Directory = (string, string) -> seq<ProjectUser>

  /**
   The user id a response resolves to: none for an empty response, otherwise
   the id of the record the service listed first.
   */
  function FirstUserId(users: seq<ProjectUser>): (id: Option<u64>)
    ensures id.None? <==> |users| == 0
    ensures id.Some? ==> id.value == users[0].id
  {
    if |users| == 0 then None else Some(users[0].id)
  }

  /** The user id of `student`, looked up with the access token `token`. */
  function RetrieveUserId(directory: Directory, token: string, student: string): (id: Option<u64>)
    ensures id.None? <==> directory(token, student) == []
    ensures id.Some? ==> id.value == directory(token, student)[0].id
  {
    FirstUserId(directory(token, student))
  }

  /**
   The first match decides: once a response holds a record, records the
   service lists after it never change the outcome, whatever they contain.
   */
  lemma FirstUserIdIgnoresLaterRecords(users: seq<ProjectUser>, later: seq<ProjectUser>)
    requires |users| > 0
    ensures FirstUserId(users + later) == FirstUserId(users)
    ensures FirstUserId(users + later) == Some(users[0].id)
  {
  }

  /** Several records matching one username: the first record's id is used. */
  lemma FirstUserIdExample()
    ensures FirstUserId([ProjectUser(42), ProjectUser(7)]) == Some(42)
    ensures FirstUserId([]) == None
  {
  }
}
