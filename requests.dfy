/** The move request as the controller receives it: a list of `{id, type}` items and a
    nullable destination id; the 30-item cap and the request validation rules. */
module Requests {
  import opened Wrappers
  import opened Entries

  /** A request field as it arrives: a key that is not there at all, null, an integer, or
      some text. */
  datatype Value = Missing | Null | Int(number: int) | Text(text: string)

  datatype RequestItem = RequestItem(id: Value, kind: Value)

  datatype MoveRequest = MoveRequest(entries: seq<RequestItem>, destination: Value)

  /** At most this many requested items are authorized, loaded or moved. */
  const MaxEntries: nat := 30

  /** `collect($request->get('entries'))->take(30)`. */
  function Capped(items: seq<RequestItem>): seq<RequestItem>
  {
    if |items| <= MaxEntries then items else items[..MaxEntries]
  }

  /** The cap keeps the first 30 items in submitted order and drops only what follows. */
  lemma CappedIsLeadingPart(items: seq<RequestItem>)
    ensures |Capped(items)| == if |items| <= MaxEntries then |items| else MaxEntries
    ensures Capped(items) <= items
    ensures forall k :: 0 <= k < |Capped(items)| ==> Capped(items)[k] == items[k] && k < MaxEntries
    ensures forall tail :: Capped(items + tail) == Capped(items) || |items| < MaxEntries
  {
  }

  /** Some item has no `id` key, so reading `$entry['id']` fails before authorization. */
  predicate HasMissingId(items: seq<RequestItem>)
  {
    exists k :: 0 <= k < |items| && items[k].id.Missing?
  }

  /** The id fields of the items, in order, as handed to the authorization check. */
  function IdValues(items: seq<RequestItem>): seq<Value>
  {
    seq(|items|, k requires 0 <= k < |items| => items[k].id)
  }

  /** The integer ids among the items (`pluck('id')` used by `whereIn`). */
  function RequestedIds(items: seq<RequestItem>): set<int>
  {
    set k | 0 <= k < |items| && items[k].id.Int? :: items[k].id.number
  }

  /** `entries.*.id => required|integer` and `entries.*.type => required|in:file,folder`. */
  predicate ValidItem(item: RequestItem)
  {
    item.id.Int? && (item.kind == Text("file") || item.kind == Text("folder"))
  }

  /** The request validation rules, applied to the WHOLE request (not the capped list):
      a non-empty list of valid items, and a destination that is absent, null or an
      existing id. */
  predicate Validates(request: MoveRequest, rows: seq<Entry>)
  {
    && |request.entries| >= 1
    && (forall k :: 0 <= k < |request.entries| ==> ValidItem(request.entries[k]))
    && (request.destination.Missing? || request.destination.Null?
        || (request.destination.Int? && FindEntry(rows, request.destination.number).Some?))
  }

  /** The destination as the controller uses it after validation; an absent field reads
      as null. */
  function DestinationId(destination: Value): Option<int>
  {
    if destination.Int? then Some(destination.number) else None
  }

  /** A validated request names an existing destination or none, and each of its first
      30 items contributes its integer id to the requested set. */
  lemma ValidatedRequestShape(request: MoveRequest, rows: seq<Entry>)
    requires Validates(request, rows)
    ensures DestinationId(request.destination).Some? ==>
              FindEntry(rows, DestinationId(request.destination).value).Some?
    ensures forall k :: 0 <= k < |Capped(request.entries)| ==>
              Capped(request.entries)[k].id.Int?
              && Capped(request.entries)[k].id.number in RequestedIds(Capped(request.entries))
  {
    forall k | 0 <= k < |Capped(request.entries)|
      ensures Capped(request.entries)[k].id.Int?
    {
      assert Capped(request.entries)[k] == request.entries[k];
      assert ValidItem(request.entries[k]);
    }
  }
}
