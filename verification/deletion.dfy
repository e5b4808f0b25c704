/**
 The outcome of one delete call. The host answers a delete of a reference that no
 longer exists with status 422; the pass recognises that answer by the text " 422 "
 inside the error message and treats it as success.
 */
module Deletion {
  import opened Wrappers
  import opened Records
  import opened GoStrings

  const UnprocessableMarker := " 422 "

  datatype Outcome = Deleted | AlreadyAbsent | Failed(error: Error)

  /** The three-way classification of a delete reply (nil error, "422" error, any other error). */
  function Classify(reply: Option<Error>): (o: Outcome)
    ensures reply.None? ==> o == Deleted
    ensures o == AlreadyAbsent <==> reply.Some? && Contains(reply.value.message, UnprocessableMarker)
    ensures o.Failed? <==> reply.Some? && !Contains(reply.value.message, UnprocessableMarker)
    ensures o.Failed? ==> o.error == reply.value
  {
    match reply
    case None => Deleted
    case Some(e) => if Contains(e.message, UnprocessableMarker) then AlreadyAbsent else Failed(e)
  }

  /** The error the pass returns for a reply: the reply's own error, unchanged, when it is a hard failure. */
  function HardError(reply: Option<Error>): (err: Option<Error>)
    ensures err.Some? <==> Classify(reply).Failed?
    ensures err.Some? ==> reply == err
  {
    match Classify(reply)
    case Failed(e) => Some(e)
    case _ => None
  }

  /**
   The text of the host's answer to a delete of a missing reference, laid out as the
   client library prints an error response: method, URL, status, message, details.
   */
  function MissingRefError(t: RefTarget): (e: Error)
    ensures Contains(e.message, UnprocessableMarker)
  {
    var request := "DELETE https://api.github.com/repos/" + t.owner + "/" + t.repo + "/git/refs/" + t.path + ":";
    ContainsInfix(request, UnprocessableMarker, "Reference does not exist []");
    Error(request + UnprocessableMarker + "Reference does not exist []")
  }

  /**
   A host that holds a set of references and never fails otherwise: deleting a
   present reference removes it and succeeds; deleting an absent one answers 422.
   */
  function DeleteOnHost(refs: set<RefTarget>, t: RefTarget): (res: (set<RefTarget>, Option<Error>))
    ensures res.0 == refs - {t}
    ensures Classify(res.1) == if t in refs then Deleted else AlreadyAbsent
  {
    if t in refs then (refs - {t}, None) else (refs, Some(MissingRefError(t)))
  }

  /** Deleting the same branch twice yields Deleted then AlreadyAbsent, never a failure. */
  lemma DeleteTwice(refs: set<RefTarget>, t: RefTarget)
    requires t in refs
    ensures var (after, first) := DeleteOnHost(refs, t);
      && Classify(first) == Deleted
      && Classify(DeleteOnHost(after, t).1) == AlreadyAbsent
      && DeleteOnHost(after, t).0 == after
  {
  }
}
