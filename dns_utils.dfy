/** The provider-facing helpers of the watcher: looking a record up in the
    provider's record list, and building the "modify record status" requests
    that enable or disable a record. The provider itself is foreign; it is
    represented by the reply it gives to each request and, for stating what a
    sequence of requests achieves, by a map from record id to status. */
module DnsUtils {
  import opened Common

  /** The two statuses a record can be set to, named as the provider spells them. */
  datatype Status = ENABLE | DISABLE

  /** One entry of the provider's record list. */
  datatype RecordItem = RecordItem(recordId: RecordId, name: string, value: string, line: string, status: Status)

  /** A "modify record status" request. */
  datatype ModifyRequest = ModifyRequest(domain: string, recordId: RecordId, status: Status)

  /** A request that was sent, with the error the provider answered. */
  datatype StatusCall = StatusCall(request: ModifyRequest, reply: Outcome)

  /** A lookup result: the record found, or the error returned instead: the
      list call's own error, or "record not found". */
  datatype Lookup = Found(record: RecordItem) | Failed(message: string)

  /** The provider's answer to a record-list request: the records, or the error of the call. */
  datatype Listing = Listed(records: seq<RecordItem>) | ListFailed(error: string)

  const RecordNotFound: string := "record not found"

  /** The record-matching rule of the lookup: same name and value, and the same
      line when a line is asked for (an empty line matches every line). */
  predicate Matches(r: RecordItem, name: string, value: string, line: string)
  {
    r.name == name && r.value == value && (line == "" || r.line == line)
  }

  /** The index of the first record, in list order, that matches. */
  function FirstMatch(records: seq<RecordItem>, name: string, value: string, line: string): (k: Option<nat>)
    ensures k.Some? ==> k.value < |records| && Matches(records[k.value], name, value, line)
    ensures k.Some? ==> forall j :: 0 <= j < k.value ==> !Matches(records[j], name, value, line)
    ensures k.None? ==> forall j :: 0 <= j < |records| ==> !Matches(records[j], name, value, line)
  {
    if |records| == 0 then None
    else if Matches(records[0], name, value, line) then Some(0)
    else match FirstMatch(records[1..], name, value, line)
      case None => None
      case Some(i) => Some(i + 1)
  }

  /** `queryRecord`: `listing` is the provider's answer to the record-list
      request for the domain, either the records or the error of the call. */
  function QueryRecord(listing: Listing, name: string, value: string, line: string): (r: Lookup)
    ensures listing.ListFailed? ==> r == Failed(listing.error)
    ensures listing.Listed? && r.Found? ==>
      exists i :: 0 <= i < |listing.records| && listing.records[i] == r.record
        && Matches(r.record, name, value, line)
        && forall j :: 0 <= j < i ==> !Matches(listing.records[j], name, value, line)
    ensures listing.Listed? && r.Failed? ==>
      r.message == RecordNotFound
      && forall j :: 0 <= j < |listing.records| ==> !Matches(listing.records[j], name, value, line)
  {
    match listing
    case ListFailed(e) => Failed(e)
    case Listed(records) =>
      match FirstMatch(records, name, value, line)
      case Some(i) => Found(records[i])
      case None => Failed(RecordNotFound)
  }

  /** `enable`: asks for status ENABLE on the record and returns the
      provider's error unchanged; a successful call leaves the record enabled
      at the provider, a failed one leaves the provider as it was. */
  function Enable(domain: string, recordId: RecordId, reply: Outcome): (c: StatusCall)
    ensures c.request == ModifyRequest(domain, recordId, ENABLE) && c.reply == reply
    ensures forall provider :: Apply(provider, c) == if reply.Pass? then provider[recordId := ENABLE] else provider
  {
    StatusCall(ModifyRequest(domain, recordId, ENABLE), reply)
  }

  /** `disable`: asks for status DISABLE on the record and returns the
      provider's error unchanged; a successful call leaves the record disabled
      at the provider, a failed one leaves the provider as it was. */
  function Disable(domain: string, recordId: RecordId, reply: Outcome): (c: StatusCall)
    ensures c.request == ModifyRequest(domain, recordId, DISABLE) && c.reply == reply
    ensures forall provider :: Apply(provider, c) == if reply.Pass? then provider[recordId := DISABLE] else provider
  {
    StatusCall(ModifyRequest(domain, recordId, DISABLE), reply)
  }

  /** What the provider records after a call, assuming its answer is
      truthful: the requested status when the call returned no error,
      nothing new when it returned one. */
  function Apply(provider: map<RecordId, Status>, call: StatusCall): map<RecordId, Status>
  {
    if call.reply.Pass? then provider[call.request.recordId := call.request.status] else provider
  }

  /** The provider after a sequence of calls, applied in order. */
  function ApplyAll(provider: map<RecordId, Status>, calls: seq<StatusCall>): map<RecordId, Status>
  {
    if |calls| == 0 then provider else Apply(ApplyAll(provider, calls[..|calls| - 1]), calls[|calls| - 1])
  }

  /** The status asked for by the last successful call on `id`, if any. */
  function LastSuccess(calls: seq<StatusCall>, id: RecordId): Option<Status>
  {
    if |calls| == 0 then None
    else
      var c := calls[|calls| - 1];
      if c.reply.Pass? && c.request.recordId == id then Some(c.request.status)
      else LastSuccess(calls[..|calls| - 1], id)
  }

  /** Nothing is reordered: after any sequence of calls the provider holds, for
      each record, the status of the last call on it that succeeded, and its
      earlier status when none did. */
  lemma {:induction false} LastSuccessWins(provider: map<RecordId, Status>, calls: seq<StatusCall>, id: RecordId)
    requires id in provider
    ensures id in ApplyAll(provider, calls)
    ensures ApplyAll(provider, calls)[id] == match LastSuccess(calls, id) case Some(s) => s case None => provider[id]
  {
    if |calls| > 0 {
      LastSuccessWins(provider, calls[..|calls| - 1], id);
    }
  }

  /** Enabling, then disabling, then enabling the same record, every call
      succeeding, leaves the record enabled; a failing call changes nothing. */
  lemma EnableDisableEnable(provider: map<RecordId, Status>, domain: string, id: RecordId, fail: string)
    ensures var calls := [Enable(domain, id, Pass), Disable(domain, id, Pass), Enable(domain, id, Pass)];
      id in ApplyAll(provider, calls) && ApplyAll(provider, calls)[id] == ENABLE
    ensures var calls := [Disable(domain, id, Pass), Enable(domain, id, Fail(fail))];
      id in ApplyAll(provider, calls) && ApplyAll(provider, calls)[id] == DISABLE
  {
  }
}
