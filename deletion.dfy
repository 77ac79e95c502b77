/**
 * Delete bookkeeping: each requested path is looked up in the set of existing
 * files and either removed or reported, and the report's status says whether
 * any error occurred. Removing an existing file can still fail; which removals
 * fail, and with what error text, is a parameter.
 */
module Deletion {
  import opened Wrappers

  /** The error text a removal of the given existing path raises, or None when it succeeds. */
  type Remover = string -> Option<string>

  /** What happened to one requested path. */
  datatype Outcome = Deleted(path: string) | NotFound(path: string) | Failed(path: string, reason: string)

  /** The delete response. */
  datatype DeleteReport = DeleteReport(status: string, deletedFiles: seq<string>, errors: seq<string>)

  function Step(existing: set<string>, path: string, removeError: Remover): Outcome
  {
    if path !in existing then NotFound(path)
    else
      match removeError(path)
      case Some(reason) => Failed(path, reason)
      case None => Deleted(path)
  }

  /** The existing files after one outcome. */
  function After(existing: set<string>, o: Outcome): set<string>
  {
    if o.Deleted? then existing - {o.path} else existing
  }

  /** The outcomes of a batch of requests, in request order, and the files left afterwards. */
  function Run(existing: set<string>, requests: seq<string>, removeError: Remover): (seq<Outcome>, set<string>)
  {
    if requests == [] then ([], existing)
    else
      var before := Run(existing, requests[..|requests| - 1], removeError);
      var o := Step(before.1, requests[|requests| - 1], removeError);
      (before.0 + [o], After(before.1, o))
  }

  /**
   * The `errors` entry of a missing or failed request. The `Deleted` case is
   * never used: a deletion contributes its path to the deleted list instead.
   */
  function Message(o: Outcome): string
  {
    match o
    case Deleted(path) => path
    case NotFound(path) => "File not found: " + path
    case Failed(path, reason) => "Error deleting file " + path + ": " + reason
  }

  function DeletedPaths(outcomes: seq<Outcome>): seq<string>
  {
    if outcomes == [] then []
    else
      var o := outcomes[|outcomes| - 1];
      DeletedPaths(outcomes[..|outcomes| - 1]) + (if o.Deleted? then [o.path] else [])
  }

  function ErrorMessages(outcomes: seq<Outcome>): seq<string>
  {
    if outcomes == [] then []
    else
      var o := outcomes[|outcomes| - 1];
      ErrorMessages(outcomes[..|outcomes| - 1]) + (if o.Deleted? then [] else [Message(o)])
  }

  function Status(errors: seq<string>): (status: string)
    ensures status == "success" <==> errors == []
    ensures status != "success" ==> status == "partial_success"
  {
    if errors == [] then "success" else "partial_success"
  }

  function Report(outcomes: seq<Outcome>): DeleteReport
  {
    var errors := ErrorMessages(outcomes);
    DeleteReport(Status(errors), DeletedPaths(outcomes), errors)
  }

  /** There is one outcome per request, for the path requested, in request order. */
  lemma {:induction false} OneOutcomePerRequest(existing: set<string>, requests: seq<string>, removeError: Remover)
    ensures var outcomes := Run(existing, requests, removeError).0;
      |outcomes| == |requests| && forall k :: 0 <= k < |requests| ==> outcomes[k].path == requests[k]
  {
    if requests != [] {
      OneOutcomePerRequest(existing, requests[..|requests| - 1], removeError);
    }
  }

  /** Every outcome lands in exactly one of the two lists. */
  lemma {:induction false} OutcomesSplit(outcomes: seq<Outcome>)
    ensures |DeletedPaths(outcomes)| + |ErrorMessages(outcomes)| == |outcomes|
  {
    if outcomes != [] {
      OutcomesSplit(outcomes[..|outcomes| - 1]);
    }
  }

  /** Both lists of outcomes one after another are the lists of each, concatenated. */
  lemma {:induction false} DeletedPathsAppend(a: seq<Outcome>, b: seq<Outcome>)
    ensures DeletedPaths(a + b) == DeletedPaths(a) + DeletedPaths(b)
    ensures ErrorMessages(a + b) == ErrorMessages(a) + ErrorMessages(b)
  {
    if b == [] {
      assert a + b == a;
    } else {
      var b' := b[..|b| - 1];
      assert (a + b)[..|a + b| - 1] == a + b';
      DeletedPathsAppend(a, b');
    }
  }

  /**
   * Each outcome lands in exactly one of the two lists, at its request's place:
   * its path between the deletions before and after it, or else its message
   * between the errors before and after it.
   */
  lemma EachOutcomeInOneList(outcomes: seq<Outcome>, k: nat)
    requires k < |outcomes|
    ensures var o := outcomes[k];
      DeletedPaths(outcomes)
        == DeletedPaths(outcomes[..k]) + (if o.Deleted? then [o.path] else []) + DeletedPaths(outcomes[k + 1..])
    ensures var o := outcomes[k];
      ErrorMessages(outcomes)
        == ErrorMessages(outcomes[..k]) + (if o.Deleted? then [] else [Message(o)]) + ErrorMessages(outcomes[k + 1..])
  {
    var o := outcomes[k];
    assert outcomes == outcomes[..k] + [o] + outcomes[k + 1..];
    DeletedPathsAppend(outcomes[..k] + [o], outcomes[k + 1..]);
    DeletedPathsAppend(outcomes[..k], [o]);
  }

  /** The error list is empty iff every outcome is a deletion. */
  lemma {:induction false} NoErrorsIffAllDeleted(outcomes: seq<Outcome>)
    ensures ErrorMessages(outcomes) == [] <==> forall k :: 0 <= k < |outcomes| ==> outcomes[k].Deleted?
  {
    if outcomes != [] {
      var init := outcomes[..|outcomes| - 1];
      NoErrorsIffAllDeleted(init);
      assert forall k :: 0 <= k < |init| ==> init[k] == outcomes[k];
    }
  }

  /** The files left are the files there were, less exactly the deleted ones. */
  lemma {:induction false} RunRemovesExactlyDeleted(existing: set<string>, requests: seq<string>, removeError: Remover)
    ensures var run := Run(existing, requests, removeError);
      && run.1 == existing - (set p | p in DeletedPaths(run.0))
      && (forall p :: p in DeletedPaths(run.0) ==> p in existing && p in requests)
  {
    if requests != [] {
      var init := requests[..|requests| - 1];
      RunRemovesExactlyDeleted(existing, init, removeError);
      var run := Run(existing, requests, removeError);
      var before := Run(existing, init, removeError);
      var o := Step(before.1, requests[|requests| - 1], removeError);
      assert run.0[..|run.0| - 1] == before.0;
      var added := if o.Deleted? then [o.path] else [];
      assert DeletedPaths(run.0) == DeletedPaths(before.0) + added;
      assert (set p | p in DeletedPaths(run.0)) == (set p | p in DeletedPaths(before.0)) + (set p | p in added);
      forall p | p in DeletedPaths(run.0) ensures p in existing && p in requests {
        if p in DeletedPaths(before.0) {
          assert p in init;
        }
      }
    }
  }

  /**
   * The report accounts for every request: each one is either deleted or
   * reported, and the status is "success" iff every request was deleted.
   */
  lemma ReportAccountsForEveryRequest(existing: set<string>, requests: seq<string>, removeError: Remover)
    ensures var outcomes := Run(existing, requests, removeError).0;
      var report := Report(outcomes);
      && |outcomes| == |requests|
      && |report.deletedFiles| + |report.errors| == |requests|
      && (report.status == "success" <==> report.errors == [])
      && (report.status == "success" <==> forall k :: 0 <= k < |requests| ==> outcomes[k] == Deleted(requests[k]))
      && (report.status != "success" ==> report.status == "partial_success")
  {
    var outcomes := Run(existing, requests, removeError).0;
    OneOutcomePerRequest(existing, requests, removeError);
    OutcomesSplit(outcomes);
    NoErrorsIffAllDeleted(outcomes);
  }

  /** A requested path that did not exist is reported as not found. */
  lemma {:induction false} MissingIsReported(existing: set<string>, requests: seq<string>, removeError: Remover, k: nat)
    requires k < |requests| && requests[k] !in existing
    ensures "File not found: " + requests[k] in ErrorMessages(Run(existing, requests, removeError).0)
  {
    var init := requests[..|requests| - 1];
    var before := Run(existing, init, removeError);
    var outcomes := Run(existing, requests, removeError).0;
    assert outcomes[..|outcomes| - 1] == before.0;
    if k < |init| {
      MissingIsReported(existing, init, removeError, k);
    } else {
      RunRemovesExactlyDeleted(existing, init, removeError);
      assert requests[k] !in before.1;
    }
  }

  /** The files on disk, as far as deletion can tell: a set that shrinks as files are removed. */
  class FileStore {
    var existing: set<string>
    const removeError: Remover

    constructor (files: set<string>, removeError: Remover)
      ensures existing == files && this.removeError == removeError
    {
      existing := files;
      this.removeError := removeError;
    }

    /** The delete request's loop: remove or report each requested path, in order. */
    method DeleteFiles(requests: seq<string>) returns (report: DeleteReport)
      modifies this
      ensures var (outcomes, left) := Run(old(existing), requests, removeError);
        report == Report(outcomes) && existing == left
    {
      var deleted: seq<string> := [];
      var errors: seq<string> := [];
      ghost var outcomes: seq<Outcome> := [];
      for k := 0 to |requests|
        invariant (outcomes, existing) == Run(old(existing), requests[..k], removeError)
        invariant deleted == DeletedPaths(outcomes) && errors == ErrorMessages(outcomes)
      {
        var file := requests[k];
        assert requests[..k + 1][..k] == requests[..k];
        ghost var o := Step(existing, file, removeError);
        if file in existing {
          var failure := removeError(file);
          if failure.Some? {
            errors := errors + ["Error deleting file " + file + ": " + failure.value];
          } else {
            existing := existing - {file};
            deleted := deleted + [file];
          }
        } else {
          errors := errors + ["File not found: " + file];
        }
        outcomes := outcomes + [o];
      }
      assert requests[..|requests|] == requests;
      report := DeleteReport(Status(errors), deleted, errors);
    }
  }

  /** One existing and one missing file: the existing one is deleted and the batch is a partial success. */
  lemma OneExistingOneMissing(removeError: Remover)
    requires removeError("x.mp3") == None
    ensures Report(Run({"x.mp3"}, ["x.mp3", "missing.mp3"], removeError).0)
            == DeleteReport("partial_success", ["x.mp3"], ["File not found: missing.mp3"])
  {
    var requests := ["x.mp3", "missing.mp3"];
    assert requests[..1] == ["x.mp3"];
    assert ["x.mp3"][..0] == [];
    var first := Run({"x.mp3"}, ["x.mp3"], removeError);
    assert first.0 == [Deleted("x.mp3")];
    assert first.1 == {};
    var outcomes := [Deleted("x.mp3"), NotFound("missing.mp3")];
    assert Run({"x.mp3"}, requests, removeError).0 == outcomes;
    ReportOfOneDeletedOneMissing();
  }

  lemma ReportOfOneDeletedOneMissing()
    ensures Report([Deleted("x.mp3"), NotFound("missing.mp3")])
            == DeleteReport("partial_success", ["x.mp3"], ["File not found: missing.mp3"])
  {
    var outcomes := [Deleted("x.mp3"), NotFound("missing.mp3")];
    assert outcomes[..1] == [Deleted("x.mp3")];
    assert outcomes[..1][..0] == [];
    assert ErrorMessages(outcomes[..1]) == [];
    assert DeletedPaths(outcomes[..1]) == ["x.mp3"];
    assert "File not found: " + "missing.mp3" == "File not found: missing.mp3";
  }
}
