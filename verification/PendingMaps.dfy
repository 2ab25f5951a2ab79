/** The client's pending maps: what each response handler takes off them. */
module PendingMaps {
  import opened ServerStates
  import opened Replies
  import opened SplitUpdate
  import opened LargeObjects

  /** An entry of a server pending map: request id, the server asked, and the application request it serves. */
  datatype Entry = Entry(requestId: RequestId, server: Server, parent: ApplicationId)

  /** The servers that still owe a response to a request. */
  ghost function EntriesOf(entries: seq<Entry>, r: RequestId): multiset<Server> {
    if entries == [] then multiset{}
    else
      var last := |entries| - 1;
      EntriesOf(entries[..last], r)
      + if entries[last].requestId == r then multiset{entries[last].server} else multiset{}
  }

  lemma {:induction false} EntriesOfAppend(a: seq<Entry>, b: seq<Entry>, r: RequestId)
    ensures EntriesOf(a + b, r) == EntriesOf(a, r) + EntriesOf(b, r)
  {
    if b == [] {
      assert a + b == a;
    } else {
      var last := |b| - 1;
      assert (a + b)[..|a| + last] == a + b[..last];
      EntriesOfAppend(a, b[..last], r);
    }
  }

  lemma EntriesOfRemoved(entries: seq<Entry>, i: nat, r: RequestId)
    requires i < |entries|
    ensures EntriesOf(entries, r) == EntriesOf(entries[..i] + entries[i + 1..], r)
                                     + if entries[i].requestId == r then multiset{entries[i].server} else multiset{}
  {
    assert entries == entries[..i] + [entries[i]] + entries[i + 1..];
    EntriesOfAppend(entries[..i], entries[i + 1..], r);
    EntriesOfAppend(entries[..i] + [entries[i]], entries[i + 1..], r);
    EntriesOfAppend(entries[..i], [entries[i]], r);
    assert EntriesOf([entries[i]], r)
           == if entries[i].requestId == r then multiset{entries[i].server} else multiset{} by {
      assert [entries[i]][..0] == [];
    }
  }

  lemma {:induction false} InEntries(entries: seq<Entry>, r: RequestId, p: Server)
    ensures p in EntriesOf(entries, r)
            <==> exists i :: 0 <= i < |entries| && entries[i].requestId == r && entries[i].server == p
  {
    if entries != [] {
      var last := |entries| - 1;
      InEntries(entries[..last], r, p);
      assert forall i :: 0 <= i < last ==> entries[..last][i] == entries[i];
    }
  }

  /** Request r has these entries more; every other request has the same. */
  ghost predicate Entered(was: seq<Entry>, now: seq<Entry>, r: RequestId, more: multiset<Server>) {
    forall x :: EntriesOf(now, x) == if x == r then EntriesOf(was, x) + more else EntriesOf(was, x)
  }

  /** All entries not there before are of request r and serve this application request. */
  ghost predicate OnlyAdded(was: seq<Entry>, now: seq<Entry>, r: RequestId, app: ApplicationId) {
    forall e :: e in now ==> e in was || (e.requestId == r && e.parent == app)
  }

  lemma EnteredTwice(was: seq<Entry>, mid: seq<Entry>, now: seq<Entry>, r: RequestId, a: multiset<Server>,
                     b: multiset<Server>)
    requires Entered(was, mid, r, a) && Entered(mid, now, r, b)
    ensures Entered(was, now, r, a + b)
  {
  }

  lemma EnteredOne(was: seq<Entry>, entry: Entry)
    ensures Entered(was, was + [entry], entry.requestId, multiset{entry.server})
  {
    assert (was + [entry])[..|was|] == was;
  }

  /** The servers that the pieces of an UPDATE are sent to. */
  ghost function PieceServers(pieces: seq<Piece>, serverOf: nat -> Server): multiset<Server> {
    if pieces == [] then multiset{}
    else
      var last := |pieces| - 1;
      PieceServers(pieces[..last], serverOf) + multiset{serverOf(pieces[last].splitIndex)}
  }

  /** A server gets a message for every piece of a split that it keeps. */
  lemma {:induction false} PieceServersOf(pieces: seq<Piece>, serverOf: nat -> Server, p: Server)
    ensures PieceServers(pieces, serverOf)[p] == |set x | 0 <= x < |pieces| && serverOf(pieces[x].splitIndex) == p|
  {
    if pieces != [] {
      PieceServersOf(pieces[..|pieces| - 1], serverOf, p);
      OwnPieces(pieces, serverOf, p);
    }
  }

  lemma OwnPieces(pieces: seq<Piece>, serverOf: nat -> Server, p: Server)
    requires pieces != []
    ensures var last := |pieces| - 1;
            |set x | 0 <= x < |pieces| && serverOf(pieces[x].splitIndex) == p|
            == |set x | 0 <= x < last && serverOf(pieces[..last][x].splitIndex) == p|
               + if serverOf(pieces[last].splitIndex) == p then 1 else 0
  {
    var last := |pieces| - 1;
    var before := pieces[..last];
    var fewer := set x | 0 <= x < last && serverOf(before[x].splitIndex) == p;
    var own := set x | 0 <= x < |pieces| && serverOf(pieces[x].splitIndex) == p;
    forall x
      ensures x in own <==> x in fewer || (x == last && serverOf(pieces[last].splitIndex) == p)
    {
      assert 0 <= x < last ==> before[x] == pieces[x];
    }
    assert own == if serverOf(pieces[last].splitIndex) == p then fewer + {last} else fewer;
  }

  ghost function PieceEntries(app: ApplicationId, r: RequestId, pieces: seq<Piece>, serverOf: nat -> Server)
    : (entries: seq<Entry>)
    ensures |entries| == |pieces|
  {
    if pieces == [] then []
    else
      var last := |pieces| - 1;
      PieceEntries(app, r, pieces[..last], serverOf) + [Entry(r, serverOf(pieces[last].splitIndex), app)]
  }

  /** Takes the first entry of a request and server out of a map. */
  method EraseEntry(entries: seq<Entry>, requestId: RequestId, server: Server)
    returns (found: bool, parent: ApplicationId, rest: seq<Entry>)
    ensures found <==> server in EntriesOf(entries, requestId)
    ensures found ==> Entry(requestId, server, parent) in entries && Entered(rest, entries, requestId, multiset{server})
    ensures !found ==> rest == entries
    ensures forall e :: e in rest ==> e in entries
  {
    found, parent, rest := false, 0, entries;
    InEntries(entries, requestId, server);
    var it := 0;
    while it < |entries| && !(entries[it].requestId == requestId && entries[it].server == server)
      invariant 0 <= it <= |entries|
      invariant forall i :: 0 <= i < it ==> !(entries[i].requestId == requestId && entries[i].server == server)
    {
      it := it + 1;
    }
    if it < |entries| {
      found, parent, rest := true, entries[it].parent, entries[..it] + entries[it + 1..];
      forall x
        ensures EntriesOf(entries, x) == EntriesOf(rest, x) + if x == requestId then multiset{server} else multiset{}
      {
        EntriesOfRemoved(entries, it, x);
      }
    }
  }

  /**
   * What HandleSetResponse does to the server map is the response step of the request; it goes on to the application
   * exactly when that step does.
   */
  lemma SetResponseIsStep(was: seq<Entry>, now: seq<Entry>, r: RequestId, p: Server, q: Request)
    requires q.isSet && q.entries == EntriesOf(was, r) && Entered(now, was, r, multiset{p})
    ensures Responded(q, p).entries == EntriesOf(now, r)
    ensures Responded(q, p).finishing == q.finishing + if EntriesOf(now, r) == multiset{} then 1 else 0
  {
    assert q.entries == EntriesOf(now, r) + multiset{p};
  }

  class Pending {
    var serverSet: seq<Entry>
    var serverUpdate: seq<Entry>
    var applicationSet: set<ApplicationId>
    /** The pieces of an UPDATE still to be acknowledged. */
    var applicationUpdate: map<ApplicationId, int>
    /** The answers given. */
    var replies: seq<ApplicationId>

    /** The number of entries of a request in the SET map. */
    method Count(requestId: RequestId) returns (ret: nat)
      ensures ret == |EntriesOf(serverSet, requestId)|
    {
      ret := 0;
      var it := 0;
      while it < |serverSet|
        invariant 0 <= it <= |serverSet| && ret == |EntriesOf(serverSet[..it], requestId)|
      {
        assert serverSet[..it + 1][..it] == serverSet[..it];
        if serverSet[it].requestId == requestId {
          ret := ret + 1;
        }
        it := it + 1;
      }
      assert serverSet[..it] == serverSet;
    }

    /** SET: enters every message of the request before any is sent. */
    method HandleSetRequest(app: ApplicationId, requestId: RequestId, data: seq<Server>, parity: seq<Server>,
                            chunkId: nat, numSplit: nat)
      requires |data| > 0
      modifies `serverSet, `applicationSet
      ensures applicationSet == old(applicationSet) + {app}
      ensures Entered(old(serverSet), serverSet, requestId, SetServers(data, parity, chunkId, numSplit))
      ensures OnlyAdded(old(serverSet), serverSet, requestId, app)
    {
      hide Entered, DataServer;
      applicationSet := applicationSet + {app};
      ghost var was := serverSet;
      NothingEntered(was, requestId);
      var splitIndex := 0;
      while splitIndex < numSplit
        invariant 0 <= splitIndex <= numSplit && applicationSet == old(applicationSet) + {app}
        invariant Entered(was, serverSet, requestId, SetServers(data, parity, chunkId, splitIndex))
        invariant OnlyAdded(was, serverSet, requestId, app)
      {
        ghost var before := serverSet;
        var socket := DataServer(data, chunkId, splitIndex);
        EnterSplit(app, requestId, socket, parity);
        EnteredTwice(was, before, serverSet, requestId, SetServers(data, parity, chunkId, splitIndex),
                     multiset{socket} + multiset(parity));
        splitIndex := splitIndex + 1;
      }
    }

    lemma NothingEntered(was: seq<Entry>, requestId: RequestId)
      ensures Entered(was, was, requestId, multiset{})
    {
    }

    /** The messages of one split: to its data server and to every parity server. */
    method EnterSplit(app: ApplicationId, requestId: RequestId, socket: Server, parity: seq<Server>)
      modifies `serverSet
      ensures Entered(old(serverSet), serverSet, requestId, multiset{socket} + multiset(parity))
      ensures OnlyAdded(old(serverSet), serverSet, requestId, app)
    {
      hide Entered;
      ghost var was, sockets := serverSet, [socket] + parity;
      NothingEntered(was, requestId);
      var i := 0;
      while i < |parity| + 1
        invariant 0 <= i <= |parity| + 1 && Entered(was, serverSet, requestId, multiset(sockets[..i]))
        invariant OnlyAdded(was, serverSet, requestId, app)
      {
        var entry := Entry(requestId, if i == 0 then socket else parity[i - 1], app);
        EnteredOne(serverSet, entry);
        EnteredTwice(was, serverSet, serverSet + [entry], requestId, multiset(sockets[..i]), multiset{entry.server});
        assert entry.server == sockets[i] && sockets[..i + 1] == sockets[..i] + [entry.server];
        serverSet := serverSet + [entry];
        i := i + 1;
      }
      assert sockets[..i] == sockets && multiset(sockets) == multiset{socket} + multiset(parity);
    }

    /**
     * SET response: takes its entry off the server map; the application is answered when that was the last one.
     * A response without an entry is discarded.
     */
    method HandleSetResponse(requestId: RequestId, server: Server) returns (found: bool)
      modifies `serverSet, `applicationSet, `replies
      ensures found <==> server in old(EntriesOf(serverSet, requestId))
      ensures !found ==> serverSet == old(serverSet) && applicationSet == old(applicationSet) && replies == old(replies)
      ensures found ==> Entered(serverSet, old(serverSet), requestId, multiset{server})
      ensures forall e :: e in serverSet ==> e in old(serverSet)
      ensures found ==> exists parent :: Entry(requestId, server, parent) in old(serverSet) &&
                          if EntriesOf(serverSet, requestId) == multiset{} && parent in old(applicationSet)
                          then replies == old(replies) + [parent] && applicationSet == old(applicationSet) - {parent}
                          else replies == old(replies) && applicationSet == old(applicationSet)
    {
      hide Entered;
      var parent, rest;
      found, parent, rest := EraseEntry(serverSet, requestId, server);
      if found {
        serverSet := rest;
        var pending := Count(requestId);
        if pending == 0 && parent in applicationSet {
          applicationSet := applicationSet - {parent};
          replies := replies + [parent];
        }
      }
    }

    /**
     * UPDATE: the application's entry gets the number of pieces; then each is sent to the server of its split, and
     * as many entries are added.
     */
    method HandleUpdateRequest(app: ApplicationId, requestId: RequestId, chunkSize: nat, keySize: nat,
                               updateOffset: nat, updateSize: nat, serverOf: nat -> Server)
      returns (pieces: seq<Piece>)
      requires HasRoom(chunkSize, keySize, updateOffset + updateSize)
      modifies `serverUpdate, `applicationUpdate
      ensures ArePieces(pieces, chunkSize, keySize, updateOffset, updateSize)
      ensures applicationUpdate == old(applicationUpdate)[app := |pieces|]
      ensures serverUpdate == old(serverUpdate) + PieceEntries(app, requestId, pieces, serverOf)
      ensures Entered(old(serverUpdate), serverUpdate, requestId, PieceServers(pieces, serverOf))
      ensures |PieceServers(pieces, serverOf)| == |pieces|
    {
      hide Entered, ArePieces, IsLarge, SplitSize;
      var remaining;
      pieces, remaining := UpdatePieces(chunkSize, keySize, updateOffset, updateSize);
      applicationUpdate := applicationUpdate[app := remaining];
      ghost var was := serverUpdate;
      NothingEntered(was, requestId);
      var i := 0;
      while i < |pieces|
        invariant 0 <= i <= |pieces| && |PieceServers(pieces[..i], serverOf)| == i
        invariant applicationUpdate == old(applicationUpdate)[app := remaining]
        invariant serverUpdate == was + PieceEntries(app, requestId, pieces[..i], serverOf)
        invariant Entered(was, serverUpdate, requestId, PieceServers(pieces[..i], serverOf))
      {
        ghost var before := serverUpdate;
        var server := serverOf(pieces[i].splitIndex);
        SendPiece(app, requestId, server);
        EnteredTwice(was, before, serverUpdate, requestId, PieceServers(pieces[..i], serverOf), multiset{server});
        assert pieces[..i + 1][..i] == pieces[..i];
        i := i + 1;
      }
      assert pieces[..i] == pieces;
    }

    /** Sending a piece of an UPDATE enters it in the server map. */
    method SendPiece(app: ApplicationId, requestId: RequestId, server: Server)
      modifies `serverUpdate
      ensures serverUpdate == old(serverUpdate) + [Entry(requestId, server, app)]
      ensures Entered(old(serverUpdate), serverUpdate, requestId, multiset{server})
    {
      EnteredOne(serverUpdate, Entry(requestId, server, app));
      serverUpdate := serverUpdate + [Entry(requestId, server, app)];
    }

    /** The application's UPDATE entry is counted down, and erased at zero. */
    method EraseKeyValueUpdate(app: ApplicationId) returns (found: bool, remaining: int)
      modifies `applicationUpdate
      ensures found <==> app in old(applicationUpdate)
      ensures !found ==> applicationUpdate == old(applicationUpdate)
      ensures found ==> remaining == old(applicationUpdate)[app] - 1
                        && applicationUpdate == if remaining == 0 then old(applicationUpdate) - {app}
                                                else old(applicationUpdate)[app := remaining]
    {
      found, remaining := app in applicationUpdate, 0;
      if found {
        remaining := applicationUpdate[app] - 1;
        applicationUpdate := applicationUpdate[app := remaining];
        if remaining == 0 {
          applicationUpdate := applicationUpdate - {app};
        }
      }
    }

    /** UPDATE response: the application is answered when its countdown reaches zero. */
    method HandleUpdateResponse(requestId: RequestId, server: Server) returns (found: bool)
      modifies `serverUpdate, `applicationUpdate, `replies
      ensures !found ==> replies == old(replies) && applicationUpdate == old(applicationUpdate)
      ensures forall e :: e in serverUpdate ==> e in old(serverUpdate)
      ensures if server in old(EntriesOf(serverUpdate, requestId))
              then
                && Entered(serverUpdate, old(serverUpdate), requestId, multiset{server})
                && exists parent :: Entry(requestId, server, parent) in old(serverUpdate)
                     && (found <==> parent in old(applicationUpdate))
                     && (found ==>
                           if old(applicationUpdate)[parent] == 1
                           then replies == old(replies) + [parent]
                                && applicationUpdate == old(applicationUpdate) - {parent}
                           else replies == old(replies) && applicationUpdate
                                == old(applicationUpdate)[parent := old(applicationUpdate)[parent] - 1])
              else !found && serverUpdate == old(serverUpdate)
    {
      hide Entered;
      var parent, rest;
      found, parent, rest := EraseEntry(serverUpdate, requestId, server);
      if found {
        serverUpdate := rest;
        var remaining;
        found, remaining := EraseKeyValueUpdate(parent);
        if found && remaining == 0 {
          replies := replies + [parent];
        }
      }
    }
  }
}
