/**
 * The import form's two decisions and the upload itself: whether `canUpload`
 * holds, which guard stops an upload, and the upload from
 * parsed rows to the requests sent to the backend.
 */
module CsvImport {
  import opened Wrappers
  import opened FieldMapping
  import opened ProspectRecord
  import opened Batching

  const MissingOrgMessage: string := "Missing org context"
  const MapEmailMessage: string := "Map the Email field"
  const ImportFailedMessage: string := "Import failed"

  /** `!!orgId`: the user's organisation is known (not `null`, not `""`). */
  function OrgPresent(org: Option<string>): (present: bool)
    ensures present <==> org != None && org != Some("")
  {
    org.Some? && org.value != ""
  }

  /** The guards at the top of `upload`, in order: the organisation first, then the email mapping. */
  function GuardMessage(org: Option<string>, m: Mapping): (message: Option<string>)
    ensures message == None <==> OrgPresent(org) && Find(m, Email).Some?
    ensures !OrgPresent(org) ==> message == Some(MissingOrgMessage)
    ensures OrgPresent(org) && Find(m, Email).None? ==> message == Some(MapEmailMessage)
  {
    if !OrgPresent(org) then Some(MissingOrgMessage)
    else if Find(m, Email).None? then Some(MapEmailMessage)
    else None
  }

  /**
   * `canUpload` holds exactly when there are rows and
   * neither guard of `upload` would stop it.
   */
  function CanUpload(m: Mapping, rows: seq<Row>, org: Option<string>): (enabled: bool)
    ensures enabled <==> |rows| > 0 && GuardMessage(org, m) == None
  {
    Find(m, Email).Some? && |rows| > 0 && OrgPresent(org)
  }

  /** What the user is told when the upload ends. */
  datatype UploadResult = Rejected(message: string) | Imported(inserted: nat) | ImportFailed(message: string)

  /** The message of a failed import: `err.message || 'Import failed'`. */
  function FailureText(error: string): (text: string)
    ensures text != ""
    ensures error != "" ==> text == error
    ensures error == "" ==> text == ImportFailedMessage
  {
    if error == "" then ImportFailedMessage else error
  }

  /** How the end of the batching loop is reported. */
  function Report(outcome: Delivery): (result: UploadResult)
    ensures result.Imported? <==> outcome.Delivered?
    ensures outcome.Delivered? ==> result.inserted == outcome.inserted
    ensures outcome.Aborted? ==> result.ImportFailed? && result.message != ""
    ensures outcome.Aborted? && outcome.error != "" ==> result.message == outcome.error
    ensures outcome.Aborted? && outcome.error == "" ==> result.message == ImportFailedMessage
    ensures !result.Rejected?
  {
    match outcome
    case Delivered(inserted) => Imported(inserted)
    case Aborted(error) => ImportFailed(FailureText(error))
  }

  /**
   * `upload()`: checks the guards, builds the payload from the rows and sends
   * it in slices. `sent` are the requests the backend received.
   */
  method Upload(org: Option<string>, m: Mapping, rows: seq<Row>, backend: Backend<Record>)
    returns (result: UploadResult, sent: seq<seq<Record>>)
    ensures GuardMessage(org, m).Some? ==> result == Rejected(GuardMessage(org, m).value) && sent == []
    ensures GuardMessage(org, m).None? ==>
      exists outcome :: IsRun(Payload(rows, m, org.value), backend, outcome, sent) && result == Report(outcome)
    ensures result.Rejected? <==> GuardMessage(org, m).Some?
    ensures |rows| > 0 ==> (CanUpload(m, rows, org) <==> !result.Rejected?)
    ensures rows == [] && !result.Rejected? ==> result == Imported(0) && sent == []
  {
    if !OrgPresent(org) {
      return Rejected(MissingOrgMessage), [];
    }
    if Find(m, Email).None? {
      return Rejected(MapEmailMessage), [];
    }
    var payload := BuildPayload(rows, m, org.value);
    var outcome;
    outcome, sent := SendBatches(payload, backend);
    result := Report(outcome);
    if rows == [] {
      assert payload == [] && Batches(payload) == [];
    }
  }

  /**
   * Every request of an upload carries only records of the user's
   * organisation with a non-empty email, at most 500 of them.
   */
  lemma SentRecordsAreClean(org: string, m: Mapping, rows: seq<Row>, backend: Backend<Record>,
                            outcome: Delivery, sent: seq<seq<Record>>)
    requires IsRun(Payload(rows, m, org), backend, outcome, sent)
    ensures forall k :: 0 <= k < |sent| ==> 0 < |sent[k]| <= ChunkSize
    ensures forall k, r :: 0 <= k < |sent| && r in sent[k] ==>
      OrgId in r && r[OrgId] == Text(org) && HasEmail(r)
  {
    var payload := Payload(rows, m, org);
    var slices := Batches(payload);
    PayloadFacts(rows, m, org);
    forall k, r | 0 <= k < |sent| && r in sent[k]
      ensures OrgId in r && r[OrgId] == Text(org) && HasEmail(r)
    {
      assert sent[k] == slices[k];
      BatchAt(payload, k);
      var j :| 0 <= j < |sent[k]| && sent[k][j] == r;
      assert r == payload[k * ChunkSize + j];
    }
  }
}
