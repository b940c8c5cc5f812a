/**
 * Subscriber registration and message delivery: what `registerUser`,
 * `sendMessage` and `notifyAll` of `AppleBot` decide, as functions of the
 * stored users and the message. The class in bot.dfy runs the loops.
 */
module Notifier {
  import opened Text

  /** A Telegram chat id. */
  type ChatId = int

  /** Telegram's limit on one message, which the bot splits at. */
  const MAX_CHUNK: nat := 4000

  /** One `sendMessage` POST: the recipient and the chunk of text. */
  datatype Post = Post(chatId: ChatId, text: Bytes)

  /** What one curl call reports: a transport error, or an HTTP status and body. */
  datatype Delivery = CurlError(message: Bytes) | Http(status: int, response: Bytes)

  /** One entry of the delivery log (its timestamp is not modelled). */
  datatype LogEntry = LogEntry(chatId: ChatId, outcome: Delivery)

  /** The Telegram API as seen by one run: the answer to posting a chunk to a chat. */
  type Transport = (ChatId, Bytes) -> Delivery

  predicate NoDuplicates(users: seq<ChatId>) {
    forall i, j :: 0 <= i < j < |users| ==> users[i] != users[j]
  }

  /** The user list after `registerUser(id)`: append `id` unless it is already there. */
  function Registered(users: seq<ChatId>, id: ChatId): (r: seq<ChatId>)
    ensures id in r
    ensures forall u :: u in r <==> u in users || u == id
    ensures users <= r && |r| <= |users| + 1
    ensures id in users <==> r == users
    ensures NoDuplicates(users) ==> NoDuplicates(r)
  {
    if id in users then users else users + [id]
  }

  /** The chunks `sendMessage` posts for `message`. */
  function Chunks(message: Bytes): seq<Bytes>
  {
    StrSplit(message, MAX_CHUNK)
  }

  /**
   * The chunks of a message concatenate back to it; each is non-empty and at
   * most 4000 bytes, and all but the last are exactly 4000 bytes.
   */
  lemma ChunksRebuildMessage(message: Bytes)
    ensures Flatten(Chunks(message)) == message
    ensures forall i :: 0 <= i < |Chunks(message)| ==>
      0 < |Chunks(message)[i]| <= MAX_CHUNK && (i < |Chunks(message)| - 1 ==> |Chunks(message)[i]| == MAX_CHUNK)
    ensures Chunks(message) == [] <==> message == []
  {
    StrSplitFlatten(message, MAX_CHUNK);
    StrSplitSizes(message, MAX_CHUNK);
    StrSplitCount(message, MAX_CHUNK);
  }

  /** The posts of one chat, one per chunk, in chunk order. */
  function Posts(chatId: ChatId, chunks: seq<Bytes>): (r: seq<Post>)
    ensures |r| == |chunks|
  {
    if chunks == [] then []
    else Posts(chatId, chunks[..|chunks| - 1]) + [Post(chatId, chunks[|chunks| - 1])]
  }

  /** Post number i carries chunk number i. */
  lemma {:induction false} PostsAt(chatId: ChatId, chunks: seq<Bytes>, i: nat)
    requires i < |chunks|
    ensures Posts(chatId, chunks)[i] == Post(chatId, chunks[i])
  {
    var n := |chunks|;
    if i < n - 1 {
      PostsAt(chatId, chunks[..n - 1], i);
    }
  }

  /** The posts of `notifyAll(message)`: every user in stored order, each receiving all chunks. */
  function Fanout(users: seq<ChatId>, message: Bytes): seq<Post>
  {
    if users == [] then []
    else Fanout(users[..|users| - 1], message) + Posts(users[|users| - 1], Chunks(message))
  }

  /** The log entries written for `posts`, one per attempt, with the transport's answer. */
  function Attempts(posts: seq<Post>, net: Transport): (r: seq<LogEntry>)
    ensures |r| == |posts|
  {
    if posts == [] then []
    else Attempts(posts[..|posts| - 1], net) + [Attempt(posts[|posts| - 1], net)]
  }

  /** The log entry of one post: its recipient and what the transport answered. */
  function Attempt(p: Post, net: Transport): LogEntry
  {
    LogEntry(p.chatId, net(p.chatId, p.text))
  }

  /** Log entry number i records post number i. */
  lemma {:induction false} AttemptsAt(posts: seq<Post>, net: Transport, i: nat)
    requires i < |posts|
    ensures Attempts(posts, net)[i] == LogEntry(posts[i].chatId, net(posts[i].chatId, posts[i].text))
  {
    var n := |posts|;
    if i < n - 1 {
      AttemptsAt(posts[..n - 1], net, i);
    }
  }

  lemma PostsSnoc(chatId: ChatId, chunks: seq<Bytes>, i: nat)
    requires i < |chunks|
    ensures Posts(chatId, chunks[..i + 1]) == Posts(chatId, chunks[..i]) + [Post(chatId, chunks[i])]
  {
    assert chunks[..i + 1][..i] == chunks[..i];
  }

  lemma AttemptsSnoc(posts: seq<Post>, p: Post, net: Transport)
    ensures Attempts(posts + [p], net) == Attempts(posts, net) + [Attempt(p, net)]
  {
    assert (posts + [p])[..|posts|] == posts;
  }

  lemma FanoutSnoc(users: seq<ChatId>, message: Bytes, i: nat)
    requires i < |users|
    ensures Fanout(users[..i + 1], message) == Fanout(users[..i], message) + Posts(users[i], Chunks(message))
  {
    assert users[..i + 1][..i] == users[..i];
  }

  /** Every attempt has exactly one log entry, for the same chat. */
  predicate Logged(outbox: seq<Post>, log: seq<LogEntry>) {
    |outbox| == |log| && forall i :: 0 <= i < |log| ==> log[i].chatId == outbox[i].chatId
  }

  /** Logging more attempts keeps the log in step with the outbox. */
  lemma LoggedAppend(outbox: seq<Post>, log: seq<LogEntry>, posts: seq<Post>, net: Transport)
    requires Logged(outbox, log)
    ensures Logged(outbox + posts, log + Attempts(posts, net))
  {
    var a := Attempts(posts, net);
    forall i | 0 <= i < |log| + |a| ensures (log + a)[i].chatId == (outbox + posts)[i].chatId {
      if i >= |log| {
        AttemptsAt(posts, net, i - |log|);
        assert (log + a)[i] == a[i - |log|];
        assert (outbox + posts)[i] == posts[i - |log|];
      }
    }
  }

  lemma {:induction false} AttemptsAppend(a: seq<Post>, b: seq<Post>, net: Transport)
    ensures Attempts(a + b, net) == Attempts(a, net) + Attempts(b, net)
  {
    var l, r := Attempts(a + b, net), Attempts(a, net) + Attempts(b, net);
    assert |l| == |r|;
    forall i | 0 <= i < |l| ensures l[i] == r[i] {
      AttemptsAt(a + b, net, i);
      if i < |a| {
        AttemptsAt(a, net, i);
        assert (a + b)[i] == a[i];
      } else {
        AttemptsAt(b, net, i - |a|);
        assert (a + b)[i] == b[i - |a|];
      }
    }
  }

  /** Sending `a` and then `b` extends the outbox and the log as sending `a + b` does. */
  lemma SendInTurn(outbox: seq<Post>, log: seq<LogEntry>, a: seq<Post>, b: seq<Post>, net: Transport)
    ensures outbox + a + b == outbox + (a + b)
    ensures log + Attempts(a, net) + Attempts(b, net) == log + Attempts(a + b, net)
  {
    AttemptsAppend(a, b, net);
  }

  /** `notifyAll` makes one attempt per user and chunk. */
  lemma {:induction false} FanoutLength(users: seq<ChatId>, message: Bytes)
    ensures |Fanout(users, message)| == |users| * |Chunks(message)|
  {
    if users != [] {
      var n, k := |users|, |Chunks(message)|;
      FanoutLength(users[..n - 1], message);
      assert (n - 1) * k + k == n * k;
    }
  }

  /**
   * Order of delivery: attempt number j * k + c (k chunks per message) is
   * chunk c to the j-th stored user.
   */
  lemma {:induction false} FanoutAt(users: seq<ChatId>, message: Bytes, j: nat, c: nat)
    requires j < |users| && c < |Chunks(message)|
    ensures j * |Chunks(message)| + c < |Fanout(users, message)|
    ensures Fanout(users, message)[j * |Chunks(message)| + c] == Post(users[j], Chunks(message)[c])
  {
    var n, k := |users|, |Chunks(message)|;
    var prefix := users[..n - 1];
    FanoutLength(users, message);
    FanoutLength(prefix, message);
    assert j * k + c < n * k by {
      assert (j + 1) * k <= n * k by { MulMonotone(j + 1, n, k); }
    }
    if j < n - 1 {
      FanoutAt(prefix, message, j, c);
      assert j * k + c < (n - 1) * k by {
        MulMonotone(j + 1, n - 1, k);
      }
    } else {
      assert j * k == |Fanout(prefix, message)|;
      PostsAt(users[j], Chunks(message), c);
    }
  }

  lemma MulMonotone(a: nat, b: nat, k: nat)
    requires a <= b
    ensures a * k <= b * k
  {
  }

  /** A user stored once receives every chunk of the message, and nothing else of it. */
  lemma {:induction false} FanoutToOneUser(users: seq<ChatId>, message: Bytes, u: ChatId)
    requires NoDuplicates(users)
    ensures Addressed(Fanout(users, message), u) == (if u in users then Chunks(message) else [])
  {
    if users != [] {
      NoDuplicatesSplit(users);
      FanoutToOneUser(users[..|users| - 1], message, u);
      FanoutToOneUserStep(users, message, u);
    }
  }

  /** The inductive step of `FanoutToOneUser`: from the users before the last one to all of them. */
  lemma FanoutToOneUserStep(users: seq<ChatId>, message: Bytes, u: ChatId)
    requires users != [] && users[|users| - 1] !in users[..|users| - 1]
    requires Addressed(Fanout(users[..|users| - 1], message), u) ==
      (if u in users[..|users| - 1] then Chunks(message) else [])
    ensures Addressed(Fanout(users, message), u) == (if u in users then Chunks(message) else [])
  {
    var n, chunks := |users|, Chunks(message);
    var prefix, last := users[..n - 1], users[n - 1];
    AddressedAppend(Fanout(prefix, message), Posts(last, chunks), u);
    AddressedPosts(last, chunks, u);
    MemberSplit(users, u);
  }

  lemma MemberSplit(users: seq<ChatId>, u: ChatId)
    requires users != []
    ensures u in users <==> u in users[..|users| - 1] || u == users[|users| - 1]
  {
    assert users == users[..|users| - 1] + [users[|users| - 1]];
  }

  /** Without duplicates, the last user is not among the earlier ones, which have no duplicates either. */
  lemma NoDuplicatesSplit(users: seq<ChatId>)
    requires NoDuplicates(users) && users != []
    ensures NoDuplicates(users[..|users| - 1])
    ensures users[|users| - 1] !in users[..|users| - 1]
  {
    var prefix := users[..|users| - 1];
    forall k | 0 <= k < |prefix| ensures prefix[k] != users[|users| - 1] {
      assert prefix[k] == users[k];
    }
  }

  /** The texts of the posts addressed to `u`, in order. */
  function Addressed(posts: seq<Post>, u: ChatId): seq<Bytes>
  {
    if posts == [] then []
    else Addressed(posts[..|posts| - 1], u) +
         (if posts[|posts| - 1].chatId == u then [posts[|posts| - 1].text] else [])
  }

  lemma {:induction false} AddressedAppend(a: seq<Post>, b: seq<Post>, u: ChatId)
    ensures Addressed(a + b, u) == Addressed(a, u) + Addressed(b, u)
    decreases |b|
  {
    if b != [] {
      var m := |b|;
      assert (a + b)[..|a + b| - 1] == a + b[..m - 1];
      AddressedAppend(a, b[..m - 1], u);
    } else {
      assert a + b == a;
    }
  }

  lemma {:induction false} AddressedPosts(chatId: ChatId, chunks: seq<Bytes>, u: ChatId)
    ensures Addressed(Posts(chatId, chunks), u) == (if chatId == u then chunks else [])
  {
    if chunks != [] {
      var m := |chunks|;
      AddressedPosts(chatId, chunks[..m - 1], u);
      AddressedAppend(Posts(chatId, chunks[..m - 1]), [Post(chatId, chunks[m - 1])], u);
      assert Addressed([Post(chatId, chunks[m - 1])], u) == (if chatId == u then [chunks[m - 1]] else []);
      if chatId == u {
        DropLast(chunks);
      }
    }
  }
}
