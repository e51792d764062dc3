/** The wardrobe: the most-recent-first list of past analyses kept in memory and
    persisted in one storage slot (`saveToHistory` and `deleteHistoryItem` in
    App.tsx). Serialization and the browser storage are abstracted as a write
    function from the list to the outcome of `localStorage.setItem`; the slot's
    contents are modelled as the list last written successfully. */
module HistoryStore {
  import opened Wrappers
  import opened Strings
  import opened Types

  /** The outcome of serializing a list and writing it to the slot. */
  datatype WriteResult = Written | WriteThrew(error: JsError)

  // ---------------------------------------------------------------------------
  // Quota classification
  // ---------------------------------------------------------------------------

  const QuotaErrorName := "QuotaExceededError"

  /** `message` contains `keyword` when lower-cased. */
  ghost predicate MentionsIgnoringCase(message: string, keyword: string)
  {
    exists i :: OccursAt(ToLower(message), keyword, i)
  }

  /** Whether a failed write is treated as the storage being full: the error is
      named QuotaExceededError, carries code 22 or 1014, or has a message that
      mentions "quota" or "exceeded" in any letter case. */
  predicate IsQuotaError(e: JsError)
    ensures IsQuotaError(e) <==>
      || e.name == Some(QuotaErrorName)
      || e.code == Some(22)
      || e.code == Some(1014)
      || (e.message.Some? && (MentionsIgnoringCase(e.message.value, "quota")
                              || MentionsIgnoringCase(e.message.value, "exceeded")))
  {
    || e.name == Some(QuotaErrorName)
    || e.code == Some(22)
    || e.code == Some(1014)
    || (e.message.Some? && (Contains(ToLower(e.message.value), "quota")
                            || Contains(ToLower(e.message.value), "exceeded")))
  }

  /** The classification ignores letter case: two messages that agree up to case
      are classified alike, whatever the message says. */
  lemma QuotaIgnoresCase(e: JsError, m1: string, m2: string)
    requires ToLower(m1) == ToLower(m2)
    ensures IsQuotaError(e.(message := Some(m1))) <==> IsQuotaError(e.(message := Some(m2)))
  {
  }

  /** An error is not retried when its name and code do not match and its message has
      no letter q or x in either case, so that neither keyword can occur in it. */
  lemma NoSignatureNoQuota(e: JsError)
    requires e.name != Some(QuotaErrorName) && e.code != Some(22) && e.code != Some(1014)
    requires e.message.Some? ==>
      forall i :: 0 <= i < |e.message.value| ==>
        LowerChar(e.message.value[i]) != 'q' && LowerChar(e.message.value[i]) != 'x'
    ensures !IsQuotaError(e)
  {
    if e.message.Some? {
      var m := ToLower(e.message.value);
      forall i
        ensures !OccursAt(m, "quota", i)
      {
        if 0 <= i && i + 5 <= |m| {
          assert m[i..i + 5][0] == m[i];
        }
      }
      forall i
        ensures !OccursAt(m, "exceeded", i)
      {
        if 0 <= i && i + 8 <= |m| {
          assert m[i..i + 8][1] == m[i + 1];
        }
      }
    }
  }

  // ---------------------------------------------------------------------------
  // The stored form of a record
  // ---------------------------------------------------------------------------

  /** The record actually stored: both images compressed, the compressed source
      doubling as the preview, everything else as given. An absent or empty image
      is stored as null. */
  function OptimizeItem(item: HistoryItem, compress: string -> string): (r: HistoryItem)
    ensures r.id == item.id && r.timestamp == item.timestamp && r.result == item.result
    ensures r.imageState.file == item.imageState.file
    ensures r.imageState.previewUrl == r.imageState.base64
    ensures r.imageState.base64.Some? <==> Truthy(item.imageState.base64)
    ensures r.imageState.base64.Some? ==> r.imageState.base64.value == compress(item.imageState.base64.value)
    ensures r.decompositionImage.Some? <==> Truthy(item.decompositionImage)
    ensures r.decompositionImage.Some? ==> r.decompositionImage.value == compress(item.decompositionImage.value)
  {
    var source := item.imageState.base64;
    var base64 := if Truthy(source) then Some(compress(source.value)) else None;
    var decomposition := item.decompositionImage;
    item.(imageState := item.imageState.(base64 := base64, previewUrl := base64),
          decompositionImage := if Truthy(decomposition) then Some(compress(decomposition.value)) else None)
  }

  // ---------------------------------------------------------------------------
  // Saving with eviction
  // ---------------------------------------------------------------------------

  /** How a save ended. */
  datatype SaveOutcome =
    | Saved         // some prefix of the candidate list was written
    | StorageFull   // even the new record alone did not fit: it is dropped
    | WriteFailed(error: JsError)  // a non-quota failure, caught and logged

  /** Writing the first `len` records of `candidate` failed with a quota error. */
  predicate QuotaRejected(write: seq<HistoryItem> -> WriteResult, candidate: seq<HistoryItem>, len: int)
  {
    && 1 <= len <= |candidate|
    && write(candidate[..len]).WriteThrew?
    && IsQuotaError(write(candidate[..len]).error)
  }

  /** Timestamps never increase along the list. */
  predicate MostRecentFirst(history: seq<HistoryItem>)
  {
    forall i, j :: 0 <= i < j < |history| ==> history[j].timestamp <= history[i].timestamp
  }

  /** saveToHistory: prepends the optimized record and writes the list; on every
      quota failure the oldest (last) record is dropped and the write retried, down
      to a list holding only the new record. `attempts` lists the lengths written,
      longest first. On success memory and slot both hold exactly the list written;
      otherwise neither changes. */
  method SaveToHistory(
    history: seq<HistoryItem>,
    storage: seq<HistoryItem>,
    item: HistoryItem,
    compress: string -> string,
    write: seq<HistoryItem> -> WriteResult)
    returns (newHistory: seq<HistoryItem>, newStorage: seq<HistoryItem>, attempts: seq<nat>, outcome: SaveOutcome)
    ensures 1 <= |attempts| <= |history| + 1
    ensures forall k :: 0 <= k < |attempts| ==> attempts[k] == |history| + 1 - k
    ensures var candidate := [OptimizeItem(item, compress)] + history;
      forall k :: 0 <= k < |attempts| - 1 ==> QuotaRejected(write, candidate, attempts[k])
    ensures var candidate := [OptimizeItem(item, compress)] + history;
      var last := attempts[|attempts| - 1];
      && (outcome.Saved? <==> write(candidate[..last]) == Written)
      && (outcome.StorageFull? <==> last == 1 && QuotaRejected(write, candidate, 1))
      && (outcome.WriteFailed? <==> write(candidate[..last]).WriteThrew? && !IsQuotaError(write(candidate[..last]).error))
      && (outcome.WriteFailed? ==> write(candidate[..last]) == WriteThrew(outcome.error))
      && (outcome.Saved? ==> newHistory == candidate[..last])
    ensures outcome.Saved? ==>
      && newStorage == newHistory
      && 1 <= |newHistory| <= |history| + 1
      && newHistory[0] == OptimizeItem(item, compress)
      && newHistory[1..] == history[..|newHistory| - 1]
    ensures !outcome.Saved? ==> newHistory == history && newStorage == storage
    ensures storage == history ==> newStorage == newHistory
    ensures MostRecentFirst(history)
      && (forall h :: h in history ==> h.timestamp <= item.timestamp)
      ==> MostRecentFirst(newHistory)
  {
    var optimized := OptimizeItem(item, compress);
    var candidate := [optimized] + history;
    var current := candidate;
    newHistory, newStorage := history, storage;
    attempts := [];
    outcome := StorageFull;
    while |current| > 0
      invariant 1 <= |current| <= |candidate|
      invariant current == candidate[..|current|]
      invariant |attempts| == |candidate| - |current|
      invariant forall k :: 0 <= k < |attempts| ==> attempts[k] == |candidate| - k
      invariant forall k :: 0 <= k < |attempts| ==> QuotaRejected(write, candidate, attempts[k])
      invariant newHistory == history && newStorage == storage
      decreases |current|
    {
      attempts := attempts + [|current|];
      match write(current) {
        case Written =>
          newHistory, newStorage := current, current;
          outcome := Saved;
          break;
        case WriteThrew(e) =>
          if IsQuotaError(e) {
            if |current| <= 1 {
              outcome := StorageFull;
              break;
            }
            current := current[..|current| - 1];
          } else {
            outcome := WriteFailed(e);
            break;
          }
      }
    }
    if outcome.Saved? {
      assert newHistory[1..] == history[..|newHistory| - 1];
    }
  }

  // ---------------------------------------------------------------------------
  // Deletion
  // ---------------------------------------------------------------------------

  /** `history.filter(h => h.id !== id)`. */
  function WithoutId(history: seq<HistoryItem>, id: string): (r: seq<HistoryItem>)
    ensures forall h :: h in r <==> h in history && h.id != id
    ensures |r| <= |history|
  {
    if |history| == 0 then []
    else (if history[0].id != id then [history[0]] else []) + WithoutId(history[1..], id)
  }

  /** Filtering distributes over concatenation, so the order of the kept records is
      the order they had. */
  lemma {:induction false} WithoutIdAppend(a: seq<HistoryItem>, b: seq<HistoryItem>, id: string)
    ensures WithoutId(a + b, id) == WithoutId(a, id) + WithoutId(b, id)
  {
    if |a| == 0 {
      assert a + b == b;
    } else {
      assert (a + b)[1..] == a[1..] + b;
      WithoutIdAppend(a[1..], b, id);
    }
  }

  /** Deleting an id no record carries changes nothing. */
  lemma {:induction false} WithoutAbsentId(history: seq<HistoryItem>, id: string)
    requires forall k :: 0 <= k < |history| ==> history[k].id != id
    ensures WithoutId(history, id) == history
  {
    if |history| > 0 {
      WithoutAbsentId(history[1..], id);
    }
  }

  /** No two records share an id. */
  predicate UniqueIds(history: seq<HistoryItem>)
  {
    forall i, j :: 0 <= i < j < |history| ==> history[i].id != history[j].id
  }

  /** With unique ids, deleting a record's id removes exactly that record and keeps
      the others in order. */
  lemma DeleteRemovesExactlyOne(history: seq<HistoryItem>, i: nat)
    requires UniqueIds(history) && i < |history|
    ensures WithoutId(history, history[i].id) == history[..i] + history[i + 1..]
  {
    var id := history[i].id;
    var before, after := history[..i], history[i + 1..];
    assert history == (before + [history[i]]) + after;
    assert WithoutId(before, id) == before by {
      assert forall k :: 0 <= k < |before| ==> before[k].id != id by {
        forall k | 0 <= k < |before|
          ensures before[k].id != id
        {
          assert before[k] == history[k];
        }
      }
      WithoutAbsentId(before, id);
    }
    assert WithoutId(after, id) == after by {
      assert forall k :: 0 <= k < |after| ==> after[k].id != id by {
        forall k | 0 <= k < |after|
          ensures after[k].id != id
        {
          assert after[k] == history[i + 1 + k];
        }
      }
      WithoutAbsentId(after, id);
    }
    assert WithoutId(before + [history[i]], id) == before by {
      WithoutIdAppend(before, [history[i]], id);
      assert WithoutId([history[i]], id) == [];
    }
    WithoutIdAppend(before + [history[i]], after, id);
  }

  /** Deletion keeps the list most-recent-first. */
  lemma {:induction false} DeletePreservesRecency(history: seq<HistoryItem>, id: string)
    requires MostRecentFirst(history)
    ensures MostRecentFirst(WithoutId(history, id))
  {
    if |history| > 0 {
      DeletePreservesRecency(history[1..], id);
      var rest := WithoutId(history[1..], id);
      forall h | h in rest
        ensures h.timestamp <= history[0].timestamp
      {
        var k :| 0 <= k < |history[1..]| && history[1..][k] == h;
        assert history[k + 1] == h;
      }
    }
  }

  /** The state after a delete: the in-memory list, the slot, and the error thrown
      by the write, if any. */
  datatype DeleteResult = DeleteResult(history: seq<HistoryItem>, storage: seq<HistoryItem>, thrown: Option<JsError>)

  /** deleteHistoryItem: after the user confirms, the filtered list replaces the
      in-memory list and is then written to the slot. The in-memory list is replaced
      before the write, so a throwing write leaves the slot as it was. */
  function DeleteHistoryItem(
    history: seq<HistoryItem>,
    storage: seq<HistoryItem>,
    id: string,
    confirmed: bool,
    write: seq<HistoryItem> -> WriteResult): (r: DeleteResult)
    ensures !confirmed ==> r == DeleteResult(history, storage, None)
    ensures confirmed ==>
      && r.history == WithoutId(history, id)
      && (forall h :: h in r.history <==> h in history && h.id != id)
      && (write(r.history).Written? ==> r.storage == r.history && r.thrown.None?)
      && (write(r.history).WriteThrew? ==> r.storage == storage && r.thrown == Some(write(r.history).error))
    ensures MostRecentFirst(history) ==> MostRecentFirst(r.history)
  {
    if !confirmed then DeleteResult(history, storage, None)
    else
      var kept := WithoutId(history, id);
      assert MostRecentFirst(history) ==> MostRecentFirst(kept) by {
        if MostRecentFirst(history) {
          DeletePreservesRecency(history, id);
        }
      }
      match write(kept)
      case Written => DeleteResult(kept, kept, None)
      case WriteThrew(e) => DeleteResult(kept, storage, Some(e))
  }
}
