/**
 Transfers that are disturbed: a call that the server has executed but whose reply is lost is made again, and the
 server answers with the block behind; and an aborted transfer leaves a count of outstanding bytes to the next one.
 */
module TransferFaults {
  import opened Prelude
  import opened TileAssembly
  import opened TileTransfer

  /** A reply of the server for one MDD: a block, and the status behind it (3 block, 2 tile left, otherwise the MDD is done). */
  datatype Reply = Reply(block: seq<byte>, status: nat)

  /** The replies for the rest of a tile, of which `outstanding` bytes are left, 0 for a fresh one; `last` closes it. */
  function TileReplies(data: seq<byte>, outstanding: nat, maxBuffer: nat, last: nat): seq<Reply>
    requires maxBuffer >= 1 && outstanding <= |data| && (outstanding > 0 ==> |data| > maxBuffer)
    decreases if outstanding == 0 then |data| else outstanding, if outstanding == 0 then 1 else 0
  {
    var r := BlockRange(|data|, outstanding, maxBuffer);
    var left := |data| - r.to;
    if left == 0 then [Reply(data[r.from..r.to], last)]
    else [Reply(data[r.from..r.to], 3)] + TileReplies(data, left, maxBuffer, last)
  }

  /** The replies for all tiles of an MDD, in order; `end` is the status behind the last. */
  function AllReplies(tiles: seq<seq<byte>>, maxBuffer: nat, end: nat): seq<Reply>
    requires maxBuffer >= 1
  {
    if tiles == [] then []
    else TileReplies(tiles[0], 0, maxBuffer, if |tiles| == 1 then end else 2) + AllReplies(tiles[1..], maxBuffer, end)
  }

  // ---------- the client over a network that loses calls and replies ----------

  /** What becomes of an attempt to call the server. */
  datatype Attempt = NotExecuted | ReplyLost | Answered

  /** What a retry loop comes to: a reply, the server's refusal for want of tiles, or an exception after too many attempts. */
  datatype Outcome = Got(reply: Reply, rest: seq<Reply>, next: nat) | Refused | GaveUp

  /**
   The retry loop, from the k-th attempt of the transfer on, after `tries` attempts of its own: an executed call takes
   one reply from the server, whether it arrives or not. The limit is checked behind the attempt.
   */
  function CallServer(replies: seq<Reply>, network: nat -> Attempt, k: nat, tries: nat, maxRetry: nat): (r: Outcome)
    requires tries <= maxRetry + 1
    ensures r.Got? ==> |r.rest| < |replies|
    decreases maxRetry + 1 - tries
  {
    var rest := if network(k).NotExecuted? || replies == [] then replies else replies[1..];
    if tries > maxRetry then GaveUp
    else if network(k).Answered? then if replies == [] then Refused else Got(replies[0], rest, k + 1)
    else CallServer(rest, network, k + 1, tries + 1, maxRetry)
  }

  /** The tiles the client makes of what it gets, the first of them with the bytes `begun`; nothing after an exception. */
  function Client(replies: seq<Reply>, begun: seq<byte>, network: nat -> Attempt, k: nat, maxRetry: nat): Option<seq<seq<byte>>>
    decreases |replies|
  {
    match CallServer(replies, network, k, 0, maxRetry)
    case Refused => None
    case GaveUp => None
    case Got(reply, rest, next) =>
      var bytes := begun + reply.block;
      if reply.status == 3 then Client(rest, bytes, network, next, maxRetry)
      else if reply.status == 2 then Prepend([bytes], Client(rest, [], network, next, maxRetry))
      else Some([bytes])
  }

  function Prepend<T>(front: seq<T>, r: Option<seq<T>>): Option<seq<T>> {
    match r
    case None => None
    case Some(rest) => Some(front + rest)
  }

  /** The attempt that answers a call, if none before it is executed and the limit is not passed. */
  function AnsweringAttempt(network: nat -> Attempt, k: nat, tries: nat, maxRetry: nat): Option<nat>
    decreases maxRetry + 1 - tries
  {
    if tries > maxRetry || network(k).ReplyLost? then None
    else if network(k).Answered? then Some(k)
    else AnsweringAttempt(network, k + 1, tries + 1, maxRetry)
  }

  /** From attempt k on, the network answers n calls: no executed call loses its reply, and no loop gives up. */
  predicate Undisturbed(network: nat -> Attempt, k: nat, n: nat, maxRetry: nat)
    decreases n
  {
    n == 0
    || match AnsweringAttempt(network, k, 0, maxRetry)
       case None => false
       case Some(at) => Undisturbed(network, at + 1, n - 1, maxRetry)
  }

  // ---------- the code ----------

  function Bytes(tiles: seq<Tile>): (r: seq<seq<byte>>)
    ensures |r| == |tiles|
  {
    seq(|tiles|, i requires 0 <= i < |tiles| => tiles[i].data)
  }

  /** The replies from the middle of tile t on. */
  function RepliesFrom(tiles: seq<seq<byte>>, t: nat, outstanding: nat, maxBuffer: nat, end: nat): seq<Reply>
    requires maxBuffer >= 1 && t <= |tiles|
    requires t < |tiles| ==> outstanding <= |tiles[t]| && (outstanding > 0 ==> |tiles[t]| > maxBuffer)
  {
    if t == |tiles| then []
    else TileReplies(tiles[t], outstanding, maxBuffer, if t + 1 == |tiles| then end else 2) + AllReplies(tiles[t + 1..], maxBuffer, end)
  }

  /** The server stands in tile t of MDD i, of which `outstanding` bytes are left, and will send these replies. */
  ghost predicate Sends(server: ServerComm, c: seq<Mdd>, i: nat, t: nat, outstanding: nat, replies: seq<Reply>)
    requires i < |c|
    reads server
  {
    && server.Valid() && server.transferData == Some(c) && t <= |c[i].tiles|
    && var max := server.maxTransferBufferSize;
    && (t == |c[i].tiles| ==> server.transTiles.None? && replies == [])
    && (t < |c[i].tiles| ==>
          && outstanding <= |c[i].tiles[t].data| && (outstanding > 0 ==> |c[i].tiles[t].data| > max)
          && (if outstanding == 0 then server.AtTile(i, t)
              else server.InTile(i, t, |c[i].tiles[t].data| - outstanding))
          && replies == RepliesFrom(Bytes(c[i].tiles), t, outstanding, max, EndStatus(c, i)))
  }

  /** The status behind the last block of MDD i. */
  function EndStatus(c: seq<Mdd>, i: nat): nat { if i + 1 < |c| then 1 else 0 }

  /** One executed call: the server's next reply, or its refusal. */
  method Execute(server: ServerComm, ghost c: seq<Mdd>, ghost i: nat, ghost t: nat, ghost outstanding: nat, ghost replies: seq<Reply>)
    returns (reply: Reply, ghost t': nat, ghost outstanding': nat)
    requires i < |c| && Sends(server, c, i, t, outstanding, replies)
    modifies server
    ensures replies == [] ==> reply.status == 4
    ensures replies != [] ==> reply == replies[0] && reply.status != 4
    ensures Sends(server, c, i, t', outstanding', if replies == [] then [] else replies[1..])
  {
    ghost var max, tiles, end := server.maxTransferBufferSize, Bytes(c[i].tiles), EndStatus(c, i);
    if t < |tiles| { NextReply(tiles, t, outstanding, max, end); }
    hide RepliesFrom, FirstLarge, Clean;
    assert t < |tiles| && outstanding > 0 ==> server.InTile(server.dataIter, server.tileIter, |tiles[t]| - outstanding);
    var status, r := server.GetNextTile();
    if status == 4 { return Reply([], 4), t, outstanding; }
    reply := Reply(r.block, status);
    ghost var to := BlockRange(|tiles[t]|, outstanding, max).to;
    if to == |tiles[t]| { t', outstanding' := t + 1, 0; } else { t', outstanding' := t, |tiles[t]| - to; }
  }

  /** The replies from the middle of a tile on are its next block and the replies behind it. */
  lemma NextReply(tiles: seq<seq<byte>>, t: nat, outstanding: nat, maxBuffer: nat, end: nat)
    requires maxBuffer >= 1 && t < |tiles|
    requires outstanding <= |tiles[t]| && (outstanding > 0 ==> |tiles[t]| > maxBuffer)
    ensures var r := BlockRange(|tiles[t]|, outstanding, maxBuffer);
            var left := |tiles[t]| - r.to;
            var replies := RepliesFrom(tiles, t, outstanding, maxBuffer, end);
            && replies != [] && replies[0].block == tiles[t][r.from..r.to]
            && replies[0].status == (if left > 0 then 3 else if t + 1 == |tiles| then end else 2)
            && replies[1..] == if left > 0 then RepliesFrom(tiles, t, left, maxBuffer, end) else RepliesFrom(tiles, t + 1, 0, maxBuffer, end)
  {
    var r := BlockRange(|tiles[t]|, outstanding, maxBuffer);
    var left := |tiles[t]| - r.to;
    var last := if t + 1 == |tiles| then end else 2;
    var behind := AllReplies(tiles[t + 1..], maxBuffer, end);
    var head := Reply(tiles[t][r.from..r.to], if left == 0 then last else 3);
    if left > 0 {
      var more := TileReplies(tiles[t], left, maxBuffer, last);
      assert [head] + more + behind == [head] + (more + behind);
    } else if t + 1 < |tiles| {
      assert tiles[t + 1..][1..] == tiles[t + 2..];
    }
  }

  /** The retry loop, whose attempts the server executes or not. */
  method CallWithRetry(server: ServerComm, network: nat -> Attempt, k: nat, maxRetry: nat,
                       ghost c: seq<Mdd>, ghost i: nat, ghost t: nat, ghost outstanding: nat, ghost replies: seq<Reply>)
    returns (reply: Option<Reply>, k': nat, ghost t': nat, ghost outstanding': nat, ghost rest: seq<Reply>)
    requires i < |c| && Sends(server, c, i, t, outstanding, replies)
    modifies server
    ensures match CallServer(replies, network, k, 0, maxRetry)
            case Got(r, remaining, next) => reply == Some(r) && k' == next && rest == remaining && r.status != 4
            case Refused => reply.Some? && reply.value.status == 4
            case GaveUp => reply == None
    ensures reply.Some? ==> Sends(server, c, i, t', outstanding', rest)
  {
    hide Sends;
    var rpcRetryCounter := 0;
    reply, k', t', outstanding', rest := None, k, t, outstanding, replies;
    while reply.None?
      invariant rpcRetryCounter <= maxRetry + 1
      invariant reply.None? ==> CallServer(rest, network, k', rpcRetryCounter, maxRetry) == CallServer(replies, network, k, 0, maxRetry)
      invariant reply.Some? ==>
        match CallServer(replies, network, k, 0, maxRetry)
        case Got(r, remaining, next) => reply == Some(r) && k' == next && rest == remaining && r.status != 4
        case Refused => reply.value.status == 4
        case GaveUp => false
      invariant Sends(server, c, i, t', outstanding', rest)
      decreases maxRetry + 1 - rpcRetryCounter, if reply.None? then 1 else 0
    {
      if !network(k').NotExecuted? {
        var answer;
        answer, t', outstanding' := Execute(server, c, i, t', outstanding', rest);
        rest := if rest == [] then [] else rest[1..];
        if network(k').Answered? { reply := Some(answer); }
      }
      k' := k' + 1;
      if rpcRetryCounter > maxRetry { reply := None; return; }
      rpcRetryCounter := rpcRetryCounter + 1;
    }
  }

  /**
   The loops over tiles and blocks of `getMDDCore`, reduced to the bytes they collect, with a retry loop around each
   call: they come to what `Client` says. Without a result an exception has been thrown.
   */
  method FetchTiles(server: ServerComm, network: nat -> Attempt, maxRetry: nat, ghost c: seq<Mdd>, ghost i: nat)
    returns (r: Option<seq<seq<byte>>>)
    requires server.transferData == Some(c) && server.AtTile(i, 0)
    modifies server
    ensures r == Client(AllReplies(Bytes(c[i].tiles), server.maxTransferBufferSize, EndStatus(c, i)), [], network, 0, maxRetry)
  {
    hide CallServer, AllReplies, Client, RepliesFrom;
    ghost var rest := AllReplies(Bytes(c[i].tiles), server.maxTransferBufferSize, EndStatus(c, i));
    ghost var spec := Client(rest, [], network, 0, maxRetry);
    FromTheStart(Bytes(c[i].tiles), server.maxTransferBufferSize, EndStatus(c, i));
    ghost var t, outstanding := 0, 0;
    var tiles, bytes, status, k := [], [], 2, 0;
    assert spec.Some? ==> [] + spec.value == spec.value;
    assert Sends(server, c, i, t, outstanding, rest);
    hide Sends;
    while status == 2 || status == 3
      invariant if status == 2 || status == 3
                then Sends(server, c, i, t, outstanding, rest) && Prepend(tiles, Client(rest, bytes, network, k, maxRetry)) == spec
                else spec == Some(tiles)
      invariant status == 2 ==> bytes == []
      decreases |rest|, if status == 2 || status == 3 then 1 else 0
    {
      var reply;
      ClientStep(rest, bytes, network, k, maxRetry, tiles);
      reply, k, t, outstanding, rest := CallWithRetry(server, network, k, maxRetry, c, i, t, outstanding, rest);
      if reply.None? || reply.value.status == 4 { return None; }
      bytes, status := bytes + reply.value.block, reply.value.status;
      if status != 3 {
        tiles, bytes := tiles + [bytes], [];
      }
    }
    r := Some(tiles);
  }

  /** What one call does to the tiles collected so far. */
  lemma ClientStep(replies: seq<Reply>, begun: seq<byte>, network: nat -> Attempt, k: nat, maxRetry: nat, tiles: seq<seq<byte>>)
    ensures var whole := Prepend(tiles, Client(replies, begun, network, k, maxRetry));
            var call := CallServer(replies, network, k, 0, maxRetry);
            && (!call.Got? ==> whole == None)
            && (call.Got? ==> whole == Continued(call, begun, network, maxRetry, tiles))
  {
    hide CallServer;
    var call := CallServer(replies, network, k, 0, maxRetry);
    if call.Got? && call.reply.status == 2 {
      var bytes, behind := begun + call.reply.block, Client(call.rest, [], network, call.next, maxRetry);
      assert behind.Some? ==> tiles + ([bytes] + behind.value) == (tiles + [bytes]) + behind.value;
    }
  }

  /** The client's loops go on with the reply of a call. */
  function Continued(call: Outcome, begun: seq<byte>, network: nat -> Attempt, maxRetry: nat, tiles: seq<seq<byte>>): Option<seq<seq<byte>>>
    requires call.Got?
  {
    var bytes := begun + call.reply.block;
    if call.reply.status == 3 then Prepend(tiles, Client(call.rest, bytes, network, call.next, maxRetry))
    else if call.reply.status == 2 then Prepend(tiles + [bytes], Client(call.rest, [], network, call.next, maxRetry))
    else Some(tiles + [bytes])
  }

  lemma FromTheStart(tiles: seq<seq<byte>>, maxBuffer: nat, end: nat)
    requires maxBuffer >= 1 && tiles != []
    ensures AllReplies(tiles, maxBuffer, end) == RepliesFrom(tiles, 0, 0, maxBuffer, end)
  {
  }

  // ---------- when all tiles arrive ----------

  /** The tiles of a client that gets every reply. */
  function Received(replies: seq<Reply>, begun: seq<byte>): Option<seq<seq<byte>>> {
    if replies == [] then None
    else
      var bytes := begun + replies[0].block;
      if replies[0].status == 3 then Received(replies[1..], bytes)
      else if replies[0].status == 2 then Prepend([bytes], Received(replies[1..], []))
      else Some([bytes])
  }

  function Total(tiles: seq<seq<byte>>): nat { if tiles == [] then 0 else |tiles[0]| + Total(tiles[1..]) }
  function Weight(replies: seq<Reply>): nat { if replies == [] then 0 else |replies[0].block| + Weight(replies[1..]) }

  predicate NonEmpty(replies: seq<Reply>) { forall k :: 0 <= k < |replies| ==> replies[k].block != [] }

  /** One tile comes back from its replies, whatever comes behind. */
  lemma {:induction false} TileReceived(data: seq<byte>, outstanding: nat, maxBuffer: nat, last: nat, rest: seq<Reply>, begun: seq<byte>)
    requires maxBuffer >= 1 && outstanding <= |data| && (outstanding > 0 ==> |data| > maxBuffer) && last != 3
    requires begun == data[..if outstanding == 0 then 0 else |data| - outstanding]
    ensures Received(TileReplies(data, outstanding, maxBuffer, last) + rest, begun) == Received([Reply(data, last)] + rest, [])
    decreases if outstanding == 0 then |data| else outstanding, if outstanding == 0 then 1 else 0
  {
    var r := BlockRange(|data|, outstanding, maxBuffer);
    var left := |data| - r.to;
    var head := Reply(data[r.from..r.to], if left == 0 then last else 3);
    assert begun + data[r.from..r.to] == data[..r.to];
    assert ([Reply(data, last)] + rest)[1..] == rest;
    if left == 0 {
      assert ([head] + rest)[1..] == rest && data[..r.to] == data && [] + data == data;
    } else {
      var more := TileReplies(data, left, maxBuffer, last);
      assert [head] + more + rest == [head] + (more + rest);
      assert ([head] + (more + rest))[1..] == more + rest;
      TileReceived(data, left, maxBuffer, last, rest, data[..r.to]);
    }
  }

  /** A client that gets every reply has the tiles. */
  lemma {:induction false} AllReceived(tiles: seq<seq<byte>>, maxBuffer: nat, end: nat)
    requires maxBuffer >= 1 && tiles != [] && end <= 1
    ensures Received(AllReplies(tiles, maxBuffer, end), []) == Some(tiles)
  {
    var rest := AllReplies(tiles[1..], maxBuffer, end);
    var last := if |tiles| == 1 then end else 2;
    TileReceived(tiles[0], 0, maxBuffer, last, rest, []);
    var one := [Reply(tiles[0], last)] + rest;
    assert one[0] == Reply(tiles[0], last) && one[1..] == rest && [] + tiles[0] == tiles[0];
    assert tiles == [tiles[0]] + tiles[1..];
    if |tiles| > 1 {
      AllReceived(tiles[1..], maxBuffer, end);
    } else {
      assert tiles == [tiles[0]];
      assert Received(one, []) == Some([tiles[0]]);
    }
  }

  lemma {:induction false} TileReplyFacts(data: seq<byte>, outstanding: nat, maxBuffer: nat, last: nat)
    requires maxBuffer >= 1 && outstanding <= |data| && (outstanding > 0 ==> |data| > maxBuffer) && data != []
    ensures NonEmpty(TileReplies(data, outstanding, maxBuffer, last))
    ensures Weight(TileReplies(data, outstanding, maxBuffer, last)) == if outstanding == 0 then |data| else outstanding
    decreases if outstanding == 0 then |data| else outstanding, if outstanding == 0 then 1 else 0
  {
    var r := BlockRange(|data|, outstanding, maxBuffer);
    if |data| - r.to > 0 { TileReplyFacts(data, |data| - r.to, maxBuffer, last); }
  }

  lemma {:induction false} WeightConcat(a: seq<Reply>, b: seq<Reply>)
    ensures Weight(a + b) == Weight(a) + Weight(b)
  {
    if a == [] {
      assert a + b == b;
    } else {
      assert (a + b)[1..] == a[1..] + b;
      WeightConcat(a[1..], b);
    }
  }

  lemma {:induction false} AllReplyFacts(tiles: seq<seq<byte>>, maxBuffer: nat, end: nat)
    requires maxBuffer >= 1 && forall i :: 0 <= i < |tiles| ==> tiles[i] != []
    ensures NonEmpty(AllReplies(tiles, maxBuffer, end)) && Weight(AllReplies(tiles, maxBuffer, end)) == Total(tiles)
  {
    if tiles != [] {
      var last := if |tiles| == 1 then end else 2;
      TileReplyFacts(tiles[0], 0, maxBuffer, last);
      AllReplyFacts(tiles[1..], maxBuffer, end);
      WeightConcat(TileReplies(tiles[0], 0, maxBuffer, last), AllReplies(tiles[1..], maxBuffer, end));
    }
  }

  /** A retry loop gets the next reply exactly if its call is answered undisturbed; otherwise bytes are lost. */
  lemma {:induction false} CallAnswered(replies: seq<Reply>, network: nat -> Attempt, k: nat, tries: nat, maxRetry: nat)
    requires tries <= maxRetry + 1 && replies != [] && NonEmpty(replies)
    ensures var answer := AnsweringAttempt(network, k, tries, maxRetry);
            match CallServer(replies, network, k, tries, maxRetry)
            case Got(reply, rest, next) =>
              && NonEmpty(rest) && Weight([reply] + rest) <= Weight(replies)
              && (answer.Some? ==> [reply] + rest == replies && next == answer.value + 1)
              && (answer.None? ==> Weight([reply] + rest) < Weight(replies))
            case Refused => answer.None?
            case GaveUp => answer.None?
    decreases maxRetry + 1 - tries
  {
    assert [replies[0]] + replies[1..] == replies;
    if tries <= maxRetry {
      if network(k).NotExecuted? {
        CallAnswered(replies, network, k + 1, tries + 1, maxRetry);
      } else if network(k).ReplyLost? {
        assert Weight(replies) > Weight(replies[1..]);
        if replies[1..] != [] {
          CallAnswered(replies[1..], network, k + 1, tries + 1, maxRetry);
        } else {
          NothingLeft(network, k + 1, tries + 1, maxRetry);
        }
      }
    }
  }

  lemma {:induction false} NothingLeft(network: nat -> Attempt, k: nat, tries: nat, maxRetry: nat)
    requires tries <= maxRetry + 1
    ensures !CallServer([], network, k, tries, maxRetry).Got?
    decreases maxRetry + 1 - tries
  {
    if tries <= maxRetry { NothingLeft(network, k + 1, tries + 1, maxRetry); }
  }

  /** An undisturbed client gets every reply; a disturbed one ends with fewer bytes, or with an exception. */
  lemma {:induction false} ClientReceives(replies: seq<Reply>, begun: seq<byte>, network: nat -> Attempt, k: nat, maxRetry: nat)
    requires NonEmpty(replies)
    ensures var r := Client(replies, begun, network, k, maxRetry);
            && (r.Some? ==> Total(r.value) <= |begun| + Weight(replies))
            && (if Undisturbed(network, k, |replies|, maxRetry) then r == Received(replies, begun)
                else r.Some? ==> Total(r.value) < |begun| + Weight(replies))
    decreases |replies|
  {
    hide CallServer, AnsweringAttempt;
    if replies == [] {
      NothingLeft(network, k, 0, maxRetry);
    } else {
      CallAnswered(replies, network, k, 0, maxRetry);
      match CallServer(replies, network, k, 0, maxRetry)
      case Refused =>
      case GaveUp =>
      case Got(reply, rest, next) =>
        var bytes := begun + reply.block;
        assert Weight([reply] + rest) == |reply.block| + Weight(rest) by { assert ([reply] + rest)[1..] == rest; }
        if reply.status == 3 {
          ClientReceives(rest, bytes, network, next, maxRetry);
        } else if reply.status == 2 {
          ClientReceives(rest, [], network, next, maxRetry);
          var r := Client(rest, [], network, next, maxRetry);
          if r.Some? { assert ([bytes] + r.value)[1..] == r.value; }
        } else {
          assert Total([bytes]) == |bytes| by { assert [bytes][1..] == []; }
          assert rest != [] ==> Weight(rest) > 0;
          assert rest == [] && AnsweringAttempt(network, k, 0, maxRetry).Some? ==> |replies| == 1;
        }
    }
  }

  /**
   The client ends with the tiles of the MDD exactly if no call that the server has executed loses its reply and no
   retry loop gives up.
   */
  lemma DeliveredIffUndisturbed(tiles: seq<seq<byte>>, maxBuffer: nat, end: nat, network: nat -> Attempt, maxRetry: nat)
    requires maxBuffer >= 1 && end <= 1 && tiles != [] && forall i :: 0 <= i < |tiles| ==> tiles[i] != []
    ensures var replies := AllReplies(tiles, maxBuffer, end);
            Client(replies, [], network, 0, maxRetry) == Some(tiles) <==> Undisturbed(network, 0, |replies|, maxRetry)
  {
    hide AllReplies, Client, Received, Weight, Total, Undisturbed;
    AllReplyFacts(tiles, maxBuffer, end);
    AllReceived(tiles, maxBuffer, end);
    ClientReceives(AllReplies(tiles, maxBuffer, end), [], network, 0, maxRetry);
  }

  /** A network that loses the second reply only. */
  function LosesSecond(k: nat): Attempt { if k == 1 then ReplyLost else Answered }

  /** Two tiles in three blocks, of which the second is lost: the client ends with one tile made of the others, and no error. */
  lemma LostBlockExample(maxRetry: nat)
    requires maxRetry >= 1
    ensures var replies := AllReplies([[1, 2], [3]], 1, 0);
            && replies == [Reply([1], 3), Reply([2], 2), Reply([3], 0)]
            && Client(replies, [], LosesSecond, 0, maxRetry) == Some([[1, 3]])
  {
    var first, second, third := Reply([1], 3), Reply([2], 2), Reply([3], 0);
    ExampleReplies();
    var all := [first, second, third];
    assert all[1..] == [second, third] && all[1..][1..] == [third] && [third][1..] == [];
    assert CallServer(all, LosesSecond, 0, 0, maxRetry) == Got(first, [second, third], 1);
    assert CallServer([third], LosesSecond, 2, 1, maxRetry) == Got(third, [], 3);
    assert CallServer([second, third], LosesSecond, 1, 0, maxRetry) == Got(third, [], 3) by { assert [second, third][1..] == [third]; }
    assert [] + [1] == [1 as byte] && [1] + [3] == [1 as byte, 3];
    assert Client([second, third], [1], LosesSecond, 1, maxRetry) == Some([[1, 3]]);
  }

  lemma ExampleReplies()
    ensures AllReplies([[1, 2], [3]], 1, 0) == [Reply([1], 3), Reply([2], 2), Reply([3], 0)]
  {
    var tiles: seq<seq<byte>> := [[1, 2], [3]];
    var d: seq<byte> := [1, 2];
    assert d[0..1] == [1] && d[1..2] == [2];
    assert BlockRange(2, 1, 1) == Range(1, 2) && BlockRange(2, 0, 1) == Range(0, 1);
    assert TileReplies(d, 1, 1, 2) == [Reply([2], 2)];
    assert TileReplies(d, 0, 1, 2) == [Reply([1], 3), Reply([2], 2)];
    var one: seq<byte> := [3];
    assert one[0..1] == [3];
    assert TileReplies(one, 0, 1, 0) == [Reply([3], 0)];
    assert tiles[1..] == [one] && [one][1..] == [];
    assert AllReplies([one], 1, 0) == [Reply([3], 0)];
  }

  // ---------- a count left over from an aborted transfer ----------

  /** The bytes the client joins from blocks. */
  function Joined(replies: seq<Reply>): seq<byte> {
    if replies == [] then [] else replies[0].block + Joined(replies[1..])
  }

  /** The blocks from a count of outstanding bytes on are the last bytes of the tile. */
  lemma {:induction false} JoinedTile(data: seq<byte>, outstanding: nat, maxBuffer: nat, last: nat)
    requires maxBuffer >= 1 && outstanding <= |data| && (outstanding > 0 ==> |data| > maxBuffer)
    ensures Joined(TileReplies(data, outstanding, maxBuffer, last)) == data[if outstanding == 0 then 0 else |data| - outstanding..]
    decreases if outstanding == 0 then |data| else outstanding, if outstanding == 0 then 1 else 0
  {
    var r := BlockRange(|data|, outstanding, maxBuffer);
    var left := |data| - r.to;
    var block := data[r.from..r.to];
    if left == 0 {
      var one := [Reply(block, last)];
      assert one[1..] == [] && block + [] == block;
    } else {
      var more := TileReplies(data, left, maxBuffer, last);
      JoinedTile(data, left, maxBuffer, last);
      hide TileReplies;
      assert ([Reply(block, 3)] + more)[1..] == more;
      assert block + data[r.to..] == data[r.from..];
    }
  }

  /**
   What the client gets of a tile with a left-over count; `before` is the memory in front of the tile, where a count
   larger than the tile leads.
   */
  function StaleTile(data: seq<byte>, stale: nat, before: seq<byte>, maxBuffer: nat): seq<byte>
    requires maxBuffer >= 1 && stale <= |before|
  {
    if |data| <= maxBuffer || stale == 0 then Joined(TileReplies(data, 0, maxBuffer, 2))
    else Joined(TileReplies(before + data, stale, maxBuffer, 2))
  }

  lemma StaleTileIff(data: seq<byte>, stale: nat, before: seq<byte>, maxBuffer: nat)
    requires maxBuffer >= 1 && stale <= |before|
    ensures StaleTile(data, stale, before, maxBuffer) == data <==> |data| <= maxBuffer || stale == 0 || stale == |data|
  {
    hide Joined, TileReplies;
    if |data| <= maxBuffer || stale == 0 {
      JoinedTile(data, 0, maxBuffer, 2);
    } else {
      JoinedTile(before + data, stale, maxBuffer, 2);
      if stale == |data| { assert (before + data)[|before|..] == data; }
    }
  }

  /** The tiles of a collection from tile t of MDD i on, as the client gets them; the first large tile uses the count up. */
  function TilesReceived(c: seq<Mdd>, i: nat, t: nat, stale: nat, before: seq<byte>, maxBuffer: nat): seq<seq<byte>>
    requires maxBuffer >= 1 && stale <= |before|
    decreases |c| - i, if i < |c| then |c[i].tiles| - t else 0
  {
    if i >= |c| then []
    else if t >= |c[i].tiles| then TilesReceived(c, i + 1, 0, stale, before, maxBuffer)
    else
      var data := c[i].tiles[t].data;
      [StaleTile(data, stale, before, maxBuffer)]
      + TilesReceived(c, i, t + 1, if |data| <= maxBuffer then stale else 0, before, maxBuffer)
  }

  /** And as they are. */
  function TilesFrom(c: seq<Mdd>, i: nat, t: nat): seq<seq<byte>>
    decreases |c| - i, if i < |c| then |c[i].tiles| - t else 0
  {
    if i >= |c| then []
    else if t >= |c[i].tiles| then TilesFrom(c, i + 1, 0)
    else [c[i].tiles[t].data] + TilesFrom(c, i, t + 1)
  }

  /** A left-over count does no harm to a whole transfer exactly if `Clean` holds, whatever lies in front of the tiles. */
  lemma {:induction false} CollectionRightIffClean(c: seq<Mdd>, i: nat, t: nat, stale: nat, before: seq<byte>, maxBuffer: nat)
    requires maxBuffer >= 1 && stale <= |before|
    ensures TilesReceived(c, i, t, stale, before, maxBuffer) == TilesFrom(c, i, t) <==> Clean(c, i, t, stale, maxBuffer)
    decreases |c| - i, if i < |c| then |c[i].tiles| - t else 0
  {
    hide StaleTile;
    if i < |c| {
      if t >= |c[i].tiles| {
        CollectionRightIffClean(c, i + 1, 0, stale, before, maxBuffer);
      } else {
        var data := c[i].tiles[t].data;
        var left := if |data| <= maxBuffer then stale else 0;
        StaleTileIff(data, stale, before, maxBuffer);
        CollectionRightIffClean(c, i, t + 1, left, before, maxBuffer);
        var got, sent := TilesReceived(c, i, t, stale, before, maxBuffer), TilesFrom(c, i, t);
        assert got[0] == StaleTile(data, stale, before, maxBuffer) && got[1..] == TilesReceived(c, i, t + 1, left, before, maxBuffer);
        assert sent[0] == data && sent[1..] == TilesFrom(c, i, t + 1);
      }
    }
  }
}
