/**
 * The email cache of the session: the records `handle_fetch_emails` builds from
 * message metadata (bodies are loaded later), and the order they are stored in,
 * newest first by the message's internal timestamp.
 */
module Emails {
  import opened Common

  /** One cached message; `body` stays `None` until the message is first selected. */
  datatype EmailRecord = EmailRecord(
    id: string, sender: string, subject: string, date: string, internalDate: int, body: Option<string>)

  /** What the mail service returns for a message without its body. */
  datatype Metadata = Metadata(id: string, sender: string, subject: string, date: string, internalDate: int)

  /** `get_message_metadata` either answers or raises. */
  datatype MetadataResult = MetadataOk(metadata: Metadata) | MetadataFailed(error: string)

  function FromMetadata(m: Metadata): (e: EmailRecord)
    ensures e.body == None
  {
    EmailRecord(m.id, m.sender, m.subject, m.date, m.internalDate, None)
  }

  /**
   * The metadata loop of `handle_fetch_emails`: one record per listed message,
   * in listing order, or the error of the first lookup that raised.
   */
  function CollectMetadata(ids: seq<string>, metadataOf: string -> MetadataResult): Result<seq<EmailRecord>>
  {
    if ids == [] then Ok([])
    else
      match CollectMetadata(ids[..|ids| - 1], metadataOf)
      case Err(e) => Err(e)
      case Ok(records) =>
        match metadataOf(ids[|ids| - 1])
        case MetadataFailed(e) => Err(e)
        case MetadataOk(m) => Ok(records + [FromMetadata(m)])
  }

  /**
   * Collecting succeeds exactly when every lookup answers, and then holds one
   * record per message in order; otherwise it reports the first failing lookup.
   */
  lemma {:induction false} CollectMetadataSpec(ids: seq<string>, metadataOf: string -> MetadataResult)
    ensures CollectMetadata(ids, metadataOf).Ok? <==> forall i :: 0 <= i < |ids| ==> metadataOf(ids[i]).MetadataOk?
    ensures CollectMetadata(ids, metadataOf).Ok? ==>
      var records := CollectMetadata(ids, metadataOf).value;
      |records| == |ids| &&
      forall i :: 0 <= i < |ids| ==> records[i] == FromMetadata(metadataOf(ids[i]).metadata)
    ensures CollectMetadata(ids, metadataOf).Err? ==>
      exists i :: 0 <= i < |ids| && metadataOf(ids[i]) == MetadataFailed(CollectMetadata(ids, metadataOf).error) &&
        forall j :: 0 <= j < i ==> metadataOf(ids[j]).MetadataOk?
    decreases |ids|
  {
    if ids != [] {
      var init, last := ids[..|ids| - 1], ids[|ids| - 1];
      CollectMetadataSpec(init, metadataOf);
      assert forall i :: 0 <= i < |init| ==> ids[i] == init[i];
      match CollectMetadata(init, metadataOf) {
        case Err(e) =>
          var i :| 0 <= i < |init| && metadataOf(init[i]) == MetadataFailed(e) &&
            forall j :: 0 <= j < i ==> metadataOf(init[j]).MetadataOk?;
          assert metadataOf(ids[i]) == MetadataFailed(e);
        case Ok(records) =>
          if metadataOf(last).MetadataFailed? {
            assert metadataOf(ids[|ids| - 1]) == metadataOf(last);
          }
      }
    }
  }

  /** Once a lookup fails, collecting the metadata of any longer listing fails with the same error. */
  lemma {:induction false} PrefixErrorPropagates(ids: seq<string>, n: nat, metadataOf: string -> MetadataResult)
    requires n <= |ids|
    requires CollectMetadata(ids[..n], metadataOf).Err?
    ensures CollectMetadata(ids, metadataOf) == CollectMetadata(ids[..n], metadataOf)
    decreases |ids| - n
  {
    if n < |ids| {
      assert ids[..n + 1][..n] == ids[..n];
      PrefixErrorPropagates(ids, n + 1, metadataOf);
    } else {
      assert ids[..n] == ids;
    }
  }

  /** Every record of the list is newer than or as new as every record after it. */
  ghost predicate NewestFirst(s: seq<EmailRecord>)
  {
    forall i, j :: 0 <= i < j < |s| ==> s[i].internalDate >= s[j].internalDate
  }

  /** The records of `s` whose timestamp is `d`, in the order of `s`. */
  function WithDate(s: seq<EmailRecord>, d: int): seq<EmailRecord>
  {
    if s == [] then []
    else (if s[0].internalDate == d then [s[0]] else []) + WithDate(s[1..], d)
  }

  /** Places `x` before the first record of `s` that is not newer than it. */
  function InsertNewestFirst(x: EmailRecord, s: seq<EmailRecord>): seq<EmailRecord>
  {
    if s == [] || s[0].internalDate <= x.internalDate then [x] + s
    else [s[0]] + InsertNewestFirst(x, s[1..])
  }

  /**
   * `email_list.sort(key=lambda x: int(x['internal_date']), reverse=True)`:
   * Python's sort is stable also when reversed, so records with equal
   * timestamps keep their order. Written as an insertion sort.
   */
  function SortNewestFirst(s: seq<EmailRecord>): seq<EmailRecord>
  {
    if s == [] then [] else InsertNewestFirst(s[0], SortNewestFirst(s[1..]))
  }

  lemma {:induction false} InsertNewestFirstPermutes(x: EmailRecord, s: seq<EmailRecord>)
    ensures multiset(InsertNewestFirst(x, s)) == multiset([x] + s)
    decreases |s|
  {
    if s != [] && s[0].internalDate > x.internalDate {
      InsertNewestFirstPermutes(x, s[1..]);
      assert s == [s[0]] + s[1..];
    }
  }

  lemma {:induction false} InsertNewestFirstSorted(x: EmailRecord, s: seq<EmailRecord>)
    requires NewestFirst(s)
    ensures NewestFirst(InsertNewestFirst(x, s))
    decreases |s|
  {
    var r := InsertNewestFirst(x, s);
    if s != [] && s[0].internalDate > x.internalDate {
      var t := s[1..];
      InsertNewestFirstSorted(x, t);
      InsertNewestFirstPermutes(x, t);
      var u := InsertNewestFirst(x, t);
      assert r == [s[0]] + u;
      forall k | 0 <= k < |u| ensures u[k].internalDate <= s[0].internalDate {
        assert u[k] in multiset([x] + t);
        if u[k] != x {
          assert u[k] in t;
        }
      }
    }
  }

  lemma {:induction false} InsertNewestFirstWithDate(x: EmailRecord, s: seq<EmailRecord>, d: int)
    ensures WithDate(InsertNewestFirst(x, s), d) == WithDate([x] + s, d)
    decreases |s|
  {
    var r := InsertNewestFirst(x, s);
    if s != [] && s[0].internalDate > x.internalDate {
      var t := s[1..];
      InsertNewestFirstWithDate(x, t, d);
      assert r == [s[0]] + InsertNewestFirst(x, t) && r[1..] == InsertNewestFirst(x, t);
      assert ([x] + t)[1..] == t;
      assert ([x] + s)[1..] == s;
    } else {
      assert r == [x] + s;
    }
  }

  /** The stored order is newest first. */
  lemma {:induction false} SortNewestFirstIsSorted(s: seq<EmailRecord>)
    ensures NewestFirst(SortNewestFirst(s))
    decreases |s|
  {
    if s != [] {
      SortNewestFirstIsSorted(s[1..]);
      InsertNewestFirstSorted(s[0], SortNewestFirst(s[1..]));
    }
  }

  /** The stored list holds exactly the fetched records: a permutation. */
  lemma {:induction false} SortNewestFirstIsPermutation(s: seq<EmailRecord>)
    ensures multiset(SortNewestFirst(s)) == multiset(s)
    decreases |s|
  {
    if s != [] {
      SortNewestFirstIsPermutation(s[1..]);
      InsertNewestFirstPermutes(s[0], SortNewestFirst(s[1..]));
      assert s == [s[0]] + s[1..];
    }
  }

  /** Records with equal timestamps keep the order they were fetched in. */
  lemma {:induction false} SortNewestFirstIsStable(s: seq<EmailRecord>, d: int)
    ensures WithDate(SortNewestFirst(s), d) == WithDate(s, d)
    decreases |s|
  {
    if s != [] {
      SortNewestFirstIsStable(s[1..], d);
      InsertNewestFirstWithDate(s[0], SortNewestFirst(s[1..]), d);
      assert ([s[0]] + SortNewestFirst(s[1..]))[1..] == SortNewestFirst(s[1..]);
    }
  }
}
