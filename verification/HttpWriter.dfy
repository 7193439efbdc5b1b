/** http_conn's write: how much of the answer has gone out when it says that it is done. */
module HttpWriter {

  /** What writev returns: so many bytes, EAGAIN, or another error. */
  datatype Sent = Bytes(count: nat) | Again | Failed

  /** Done, so that the connection is reset or closed; closed after an error; or still at it. */
  datatype End = Finished | Broken | Unfinished

  /** `offsets` are the places in the answer of the bytes that went out, in their order. */
  datatype Written = Written(end: End, offsets: seq<nat>)

  /** The bytes of one writev: it always begins at the front, since the vectors are never moved on. */
  function FromFront(count: nat): (r: seq<nat>)
    ensures |r| == count && forall i | 0 <= i < count :: r[i] == i
  {
    seq(count, i => i)
  }

  /** All calls of write on one answer with `writeIdx` bytes in the write buffer, whatever belongs to it
      besides; with none there, nothing is sent. `have` bytes went out in this call; EAGAIN ends the
      call, and the next one counts anew. */
  function Write(writeIdx: nat, have: nat, results: seq<Sent>): Written
    decreases |results|
  {
    if writeIdx == 0 then Written(Finished, [])
    else if results == [] then Written(Unfinished, [])
    else
      match results[0]
      case Failed => Written(Broken, [])
      case Again => Write(writeIdx, 0, results[1..])
      case Bytes(count) =>
        if writeIdx - have - count <= have + count then Written(Finished, FromFront(count))
        else
          var rest := Write(writeIdx, have + count, results[1..]);
          Written(rest.end, FromFront(count) + rest.offsets)
  }

  /** writev sends at least one byte of an answer, and no more than there are. */
  predicate Possible(total: nat, results: seq<Sent>) {
    forall i | 0 <= i < |results| && results[i].Bytes? :: 0 < results[i].count <= total
  }

  /** What the first writev sends that sends anything. */
  function FirstSent(results: seq<Sent>): nat {
    if results == [] then 0
    else if results[0].Bytes? then results[0].count
    else FirstSent(results[1..])
  }

  lemma {:induction false} BeginsAtFront(writeIdx: nat, have: nat, results: seq<Sent>, total: nat)
    requires writeIdx > 0 && Possible(total, results) && Write(writeIdx, have, results).end.Finished?
    ensures var w := Write(writeIdx, have, results).offsets; w != [] && w[0] == 0
    decreases |results|
  {
    if !results[0].Bytes? {
      BeginsAtFront(writeIdx, 0, results[1..], total);
    }
  }

  /** An answer of `total` bytes that is said to be done has gone out, each byte once and in order,
      exactly when the first writev that sent anything sent all of it. */
  lemma {:induction false} AllWentOutIff(writeIdx: nat, total: nat, results: seq<Sent>)
    requires 0 < writeIdx <= total && Possible(total, results) && Write(writeIdx, 0, results).end.Finished?
    ensures Write(writeIdx, 0, results).offsets == FromFront(total) <==> FirstSent(results) == total
    decreases |results|
  {
    if !results[0].Bytes? {
      AllWentOutIff(writeIdx, total, results[1..]);
    } else {
      var count := results[0].count;
      if writeIdx - count > count {
        BeginsAtFront(writeIdx, count, results[1..], total);
        assert Write(writeIdx, 0, results).offsets[count] == 0;
        assert count < total ==> FromFront(total)[count] == count;
      } else {
        assert |FromFront(count)| == count && |FromFront(total)| == total;
      }
    }
  }

  function Sum(results: seq<Sent>): nat
    requires forall i | 0 <= i < |results| :: results[i].Bytes?
  {
    if results == [] then 0 else results[0].count + Sum(results[1..])
  }

  /** A call that meets no error says it is done exactly when half of the write buffer's count has gone
      out, whatever the size of the answer. */
  lemma {:induction false} FinishesAtHalf(writeIdx: nat, have: nat, results: seq<Sent>)
    requires writeIdx > 0 && forall i | 0 <= i < |results| :: results[i].Bytes?
    ensures Write(writeIdx, have, results).end.Finished? <==> results != [] && 2 * (have + Sum(results)) >= writeIdx
    decreases |results|
  {
    if results != [] {
      FinishesAtHalf(writeIdx, have + results[0].count, results[1..]);
    }
  }

  lemma NothingToWrite(have: nat, results: seq<Sent>)
    ensures Write(0, have, results) == Written(Finished, [])
  {
  }

  /** After EAGAIN the next call sends from the front and counts from 0, whatever has gone out so far. */
  lemma {:induction false} AgainCountsAnew(writeIdx: nat, have: nat, before: seq<Sent>, after: seq<Sent>)
    requires writeIdx > 0 && Write(writeIdx, have, before).end.Unfinished?
    ensures var sent, later := Write(writeIdx, have, before).offsets, Write(writeIdx, 0, after);
            Write(writeIdx, have, before + ([Again] + after)) == Written(later.end, sent + later.offsets)
    decreases |before|
  {
    var all := before + ([Again] + after);
    if before == [] {
      assert all == [Again] + after;
    } else {
      assert all[1..] == before[1..] + ([Again] + after);
      match before[0]
      case Again => AgainCountsAnew(writeIdx, 0, before[1..], after);
      case Bytes(count) =>
        AgainCountsAnew(writeIdx, have + count, before[1..], after);
        var first, rest := FromFront(count), Write(writeIdx, have + count, before[1..]).offsets;
        assert first + (rest + Write(writeIdx, 0, after).offsets) == first + rest + Write(writeIdx, 0, after).offsets;
    }
  }

  /** An error ends it: nothing goes out behind it, and the answer is never said to be done. */
  lemma {:induction false} ErrorEnds(writeIdx: nat, have: nat, before: seq<Sent>, after: seq<Sent>)
    requires writeIdx > 0 && Write(writeIdx, have, before).end.Unfinished?
    ensures Write(writeIdx, have, before + ([Failed] + after)) == Written(Broken, Write(writeIdx, have, before).offsets)
    decreases |before|
  {
    var all := before + ([Failed] + after);
    if before == [] {
      assert all == [Failed] + after;
    } else {
      assert all[1..] == before[1..] + ([Failed] + after);
      match before[0]
      case Again => ErrorEnds(writeIdx, 0, before[1..], after);
      case Bytes(count) => ErrorEnds(writeIdx, have + count, before[1..], after);
    }
  }

  /** What comes behind the end of it is not looked at. */
  lemma {:induction false} EndIsTheEnd(writeIdx: nat, have: nat, before: seq<Sent>, after: seq<Sent>)
    requires !Write(writeIdx, have, before).end.Unfinished?
    ensures Write(writeIdx, have, before + after) == Write(writeIdx, have, before)
    decreases |before|
  {
    if writeIdx > 0 {
      assert (before + after)[1..] == before[1..] + after;
      match before[0]
      case Failed =>
      case Again => EndIsTheEnd(writeIdx, 0, before[1..], after);
      case Bytes(count) =>
        if writeIdx - have - count > have + count {
          EndIsTheEnd(writeIdx, have + count, before[1..], after);
        }
    }
  }

  /** The loop of write, up to its return. `left` is what the calls after it will get from writev. */
  method WriteOnce(writeIdx: nat, results: seq<Sent>) returns (end: End, offsets: seq<nat>, left: seq<Sent>)
    ensures end.Unfinished? ==>
              var later := Write(writeIdx, 0, left);
              Write(writeIdx, 0, results) == Written(later.end, offsets + later.offsets)
    ensures !end.Unfinished? ==> Write(writeIdx, 0, results) == Written(end, offsets)
    ensures |left| <= |results|
  {
    var bytesHaveSent, bytesToSend: int := 0, writeIdx;
    offsets, left := [], results;
    if bytesToSend == 0 {
      return Finished, offsets, left;
    }
    while left != []
      invariant 0 <= bytesHaveSent && bytesToSend == writeIdx - bytesHaveSent && |left| <= |results|
      invariant var w := Write(writeIdx, bytesHaveSent, left);
                Write(writeIdx, 0, results) == Written(w.end, offsets + w.offsets)
      decreases |left|
    {
      var tmp := left[0];
      left := left[1..];
      match tmp
      case Failed => return Broken, offsets, left;
      case Again => return Unfinished, offsets, left;
      case Bytes(count) =>
        bytesToSend := bytesToSend - count;
        bytesHaveSent := bytesHaveSent + count;
        offsets := offsets + FromFront(count);
        if bytesToSend <= bytesHaveSent {
          return Finished, offsets, left;
        }
    }
    end := Unfinished;
  }
}
