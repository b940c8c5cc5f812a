/**
 * The `AppleBot` class: its persisted state (user list, the two snapshot
 * files), the messages it posts and the delivery log it appends to, and the
 * two entry points the script dispatches to.
 */
module Bot {
  import opened Wrappers
  import opened Text
  import opened Notifier
  import opened SecurityFixes
  import opened Firmware
  import opened Acknowledgements

  const START: Bytes := Ascii("/start")
  const CHECK: Bytes := Ascii("check")
  /** The confirmation sent for "/start": a status line and a line saying what will be sent. */
  const WELCOME: Bytes := SUBSCRIBED + NEWLINE + ALERTS
  const SUBSCRIBED: Bytes := EncodeChar('✅') + Ascii(" Suscripci") + EncodeChar('ó') + Ascii("n activa.")
  const ALERTS: Bytes := Ascii("Recibir") + EncodeChar('á') + Ascii("s alertas de Apple Security") + ALERT_TOPICS
  const ALERT_TOPICS: Bytes := Ascii(" y nuevas versiones de") + Ascii(" iOS, iPadOS, macOS, bridgeOS.")

  /** What one run of the script observes outside the bot. */
  datatype World = World(
    acknowledgements: Option<AckSnapshot>,  // first month block of the acknowledgements page, if any matched
    firmwares: FirmwareApi,                 // the firmware list the API returned per device identifier
    securityPages: SecurityPages,           // what the security pages gave per OS and version
    html: Html,                             // strip_tags and html_entity_decode
    telegram: Transport)                    // the answer to each sendMessage POST

  /** One invocation: `$_GET['status']`, `$argv[1]`, and the webhook update's chat id and text. */
  datatype Request = Request(status: Option<Bytes>, argument: Option<Bytes>, chatId: Option<ChatId>, text: Option<Bytes>)

  /** `$text === '/start' && $chatId`: the text is exactly "/start" and the chat id is present and non-zero. */
  predicate IsStart(chatId: Option<ChatId>, text: Option<Bytes>)
  {
    text == Some(START) && chatId.Some? && chatId.value != 0
  }

  /** The query parameter `status` or the first command-line argument is exactly "check". */
  predicate IsCheckRequest(request: Request)
  {
    request.status == Some(CHECK) || request.argument == Some(CHECK)
  }

  /** The confirmation fits in one Telegram message. */
  lemma WelcomeIsOneChunk()
    ensures Chunks(WELCOME) == [WELCOME]
  {
    assert 0 < |WELCOME| <= MAX_CHUNK;
  }

  /** Confirming a subscription is one post of the whole text to the sender. */
  lemma WelcomePosts(chatId: ChatId)
    ensures Posts(chatId, Chunks(WELCOME)) == [Post(chatId, WELCOME)]
  {
    WelcomeIsOneChunk();
    assert [WELCOME][..0] == [];
  }

  /** The user list after a webhook update. */
  function WebhookUsers(users: seq<ChatId>, chatId: Option<ChatId>, text: Option<Bytes>): (r: seq<ChatId>)
    ensures IsStart(chatId, text) ==> forall x :: x in r <==> x in users || x == chatId.value
    ensures IsStart(chatId, text) ==> NoDuplicates(users) ==> NoDuplicates(r)
    ensures IsStart(chatId, text) ==> r == Registered(users, chatId.value)
    ensures !IsStart(chatId, text) ==> r == users
  {
    if IsStart(chatId, text) then Registered(users, chatId.value) else users
  }

  /** The posts of a webhook update: one confirmation to the sender of "/start", nothing otherwise. */
  function WebhookPosts(chatId: Option<ChatId>, text: Option<Bytes>): (r: seq<Post>)
    ensures |r| == (if IsStart(chatId, text) then 1 else 0)
    ensures IsStart(chatId, text) ==> r[0].chatId == chatId.value
  {
    if IsStart(chatId, text) then [Post(chatId.value, WELCOME)] else []
  }

  /** The posts of a notice: nothing, or the message to every stored user. */
  function Broadcast(users: seq<ChatId>, notice: Option<Bytes>): seq<Post>
  {
    match notice
    case None => []
    case Some(message) => Fanout(users, message)
  }

  /** The posts of `checkAcknowledgements` when it finds `found`. */
  function AckPosts(users: seq<ChatId>, saved: Option<AckSnapshot>, found: Option<AckSnapshot>): seq<Post>
  {
    Broadcast(users, AckNotice(saved, found))
  }

  /** The posts of `checkFirmwares` against the firmware API and the security pages. */
  function FirmwarePosts(users: seq<ChatId>, saved: map<Bytes, Bytes>, api: FirmwareApi, pages: SecurityPages, html: Html): seq<Post>
  {
    Broadcast(users, FirmwareNotice(saved, Latest(DEVICES, api), DetailsFor(DEVICES, api, pages, html)))
  }

  /** The firmware snapshot after `checkFirmwares` against the firmware API. */
  function FirmwareSnapshot(saved: map<Bytes, Bytes>, api: FirmwareApi): map<Bytes, Bytes>
  {
    FirmwareAfter(saved, Latest(DEVICES, api))
  }

  /** The posts of one `runChecker`: the acknowledgement notice, then the firmware notice. */
  function CheckPosts(users: seq<ChatId>, ack: Option<AckSnapshot>, fw: map<Bytes, Bytes>, world: World): seq<Post>
  {
    AckPosts(users, ack, world.acknowledgements)
      + FirmwarePosts(users, fw, world.firmwares, world.securityPages, world.html)
  }

  /** A second `runChecker` over the same pages and API answers sends nothing and saves the same snapshots. */
  lemma RecheckSendsNothing(users: seq<ChatId>, ack: Option<AckSnapshot>, fw: map<Bytes, Bytes>, world: World)
    ensures var ack', fw' := AckAfter(ack, world.acknowledgements), FirmwareSnapshot(fw, world.firmwares);
      && CheckPosts(users, ack', fw', world) == []
      && AckAfter(ack', world.acknowledgements) == ack'
      && FirmwareSnapshot(fw', world.firmwares) == fw'
  {
    var latest := Latest(DEVICES, world.firmwares);
    AckCheckIdempotent(ack, world.acknowledgements);
    DevicesDistinct();
    LatestDistinct(DEVICES, world.firmwares);
    FirmwareCheckIdempotent(fw, latest, DetailsFor(DEVICES, world.firmwares, world.securityPages, world.html));
  }

  /** What `checkFirmwares` sends and saves, in terms of the values its loops compute. */
  lemma FirmwareOutcome(users: seq<ChatId>, saved: map<Bytes, Bytes>, api: FirmwareApi, pages: SecurityPages, html: Html,
                        latest: seq<Release>, details: seq<Detail>, changes: seq<Bytes>)
    requires latest == Latest(DEVICES, api) && details == DetailsFor(DEVICES, api, pages, html)
    requires changes == ChangeLines(Changes(saved, latest))
    ensures FirmwareSnapshot(saved, api) == (if changes == [] then saved else Snapshot(latest))
    ensures FirmwarePosts(users, saved, api, pages, html) ==
      (if changes == [] then [] else Fanout(users, FirmwareMessage(changes, details)))
  {
    NoticeFromLines(saved, latest, details);
  }

  /** Sending nothing leaves the outbox and the log as they were. */
  lemma NothingSent(outbox: seq<Post>, log: seq<LogEntry>, net: Transport)
    ensures outbox + [] == outbox && log + Attempts([], net) == log
  {
  }

  class AppleBot {
    /** users.json */
    var users: seq<ChatId>
    /** latest_ack.json; None when the file is missing or unreadable */
    var ackSnapshot: Option<AckSnapshot>
    /** latest_firmware.json */
    var fwSnapshot: map<Bytes, Bytes>
    /** every sendMessage POST, in order */
    var outbox: seq<Post>
    /** telegram_log.txt, one entry per POST */
    var log: seq<LogEntry>

    ghost predicate Valid()
      reads this
    {
      Logged(outbox, log)
    }

    /** A bot over the given persisted files, before it has posted anything. */
    constructor (users: seq<ChatId>, ackSnapshot: Option<AckSnapshot>, fwSnapshot: map<Bytes, Bytes>)
      ensures Valid()
      ensures this.users == users && this.ackSnapshot == ackSnapshot && this.fwSnapshot == fwSnapshot
      ensures outbox == [] && log == []
    {
      this.users := users;
      this.ackSnapshot := ackSnapshot;
      this.fwSnapshot := fwSnapshot;
      outbox := [];
      log := [];
    }

    /** `registerUser`: append the id unless it is stored already. */
    method RegisterUser(chatId: ChatId)
      modifies this`users
      ensures users == Registered(old(users), chatId)
    {
      if chatId !in users {
        users := users + [chatId];
      }
    }

    /** `sendMessage`: post the message in chunks of at most 4000 bytes, logging every attempt. */
    method SendMessage(chatId: ChatId, message: Bytes, net: Transport)
      requires Valid()
      modifies this`outbox, this`log
      ensures Valid()
      ensures outbox == old(outbox) + Posts(chatId, Chunks(message))
      ensures log == old(log) + Attempts(Posts(chatId, Chunks(message)), net)
    {
      var parts := StrSplit(message, MAX_CHUNK);
      var i := 0;
      while i < |parts|
        invariant 0 <= i <= |parts|
        invariant outbox == old(outbox) + Posts(chatId, parts[..i])
        invariant log == old(log) + Attempts(Posts(chatId, parts[..i]), net)
      {
        var part := parts[i];
        var outcome := net(chatId, part);
        PostsSnoc(chatId, parts, i);
        AttemptsSnoc(Posts(chatId, parts[..i]), Post(chatId, part), net);
        AppendAssoc(old(outbox), Posts(chatId, parts[..i]), [Post(chatId, part)]);
        AppendAssoc(old(log), Attempts(Posts(chatId, parts[..i]), net), [Attempt(Post(chatId, part), net)]);
        outbox := outbox + [Post(chatId, part)];
        log := log + [LogEntry(chatId, outcome)];
        i := i + 1;
      }
      TakeAll(parts);
      LoggedAppend(old(outbox), old(log), Posts(chatId, parts), net);
    }

    /** `notifyAll`: send the message to every stored user, in stored order, whatever each attempt returns. */
    method NotifyAll(message: Bytes, net: Transport)
      requires Valid()
      modifies this`outbox, this`log
      ensures Valid()
      ensures outbox == old(outbox) + Fanout(users, message)
      ensures log == old(log) + Attempts(Fanout(users, message), net)
    {
      var i := 0;
      while i < |users|
        invariant 0 <= i <= |users|
        invariant Valid()
        invariant outbox == old(outbox) + Fanout(users[..i], message)
        invariant log == old(log) + Attempts(Fanout(users[..i], message), net)
      {
        ghost var sent, posts := Fanout(users[..i], message), Posts(users[i], Chunks(message));
        SendMessage(users[i], message, net);
        FanoutSnoc(users, message, i);
        SendInTurn(old(outbox), old(log), sent, posts, net);
        i := i + 1;
      }
      TakeAll(users);
    }

    /** `handleWebhook`: register the sender of "/start" and confirm; ignore anything else. */
    method HandleWebhook(chatId: Option<ChatId>, text: Option<Bytes>, net: Transport)
      requires Valid()
      modifies this`users, this`outbox, this`log
      ensures Valid()
      ensures users == WebhookUsers(old(users), chatId, text)
      ensures outbox == old(outbox) + WebhookPosts(chatId, text)
      ensures log == old(log) + Attempts(WebhookPosts(chatId, text), net)
    {
      if text == Some(START) && chatId.Some? && chatId.value != 0 {
        RegisterUser(chatId.value);
        WelcomePosts(chatId.value);
        SendMessage(chatId.value, WELCOME, net);
      } else {
        NothingSent(outbox, log, net);
      }
    }

    /** `checkAcknowledgements`: notify and overwrite the snapshot when the first month block changed. */
    method CheckAcknowledgements(found: Option<AckSnapshot>, net: Transport)
      requires Valid()
      modifies this`ackSnapshot, this`outbox, this`log
      ensures Valid()
      ensures ackSnapshot == AckAfter(old(ackSnapshot), found)
      ensures outbox == old(outbox) + AckPosts(users, old(ackSnapshot), found)
      ensures log == old(log) + Attempts(AckPosts(users, old(ackSnapshot), found), net)
    {
      if found.None? {
        NothingSent(outbox, log, net);
        return;
      }
      var latest := found.value;
      if AckChanged(ackSnapshot, latest) {
        NotifyAll(AckMessage(latest), net);
        ackSnapshot := Some(latest);
      } else {
        NothingSent(outbox, log, net);
      }
    }

    /** `checkFirmwares`: notify and overwrite the snapshot when some OS has a new label. */
    method CheckFirmwares(api: FirmwareApi, pages: SecurityPages, html: Html, net: Transport)
      requires Valid()
      modifies this`fwSnapshot, this`outbox, this`log
      ensures Valid()
      ensures fwSnapshot == FirmwareSnapshot(old(fwSnapshot), api)
      ensures outbox == old(outbox) + FirmwarePosts(users, old(fwSnapshot), api, pages, html)
      ensures log == old(log) + Attempts(FirmwarePosts(users, old(fwSnapshot), api, pages, html), net)
    {
      var latest, details := ScanDevices(api, pages, html);
      var changes := CollectChanges(fwSnapshot, latest);
      FirmwareOutcome(users, fwSnapshot, api, pages, html, latest, details, changes);
      if changes != [] {
        var msg := ComposeMessage(changes, details);
        NotifyAll(msg, net);
        fwSnapshot := Snapshot(latest);
      } else {
        NothingSent(outbox, log, net);
      }
    }

    /** `runChecker`: the acknowledgement check, then the firmware check. */
    method RunChecker(world: World)
      requires Valid()
      modifies this`ackSnapshot, this`fwSnapshot, this`outbox, this`log
      ensures Valid()
      ensures ackSnapshot == AckAfter(old(ackSnapshot), world.acknowledgements)
      ensures fwSnapshot == FirmwareSnapshot(old(fwSnapshot), world.firmwares)
      ensures outbox == old(outbox) + CheckPosts(users, old(ackSnapshot), old(fwSnapshot), world)
      ensures log == old(log) + Attempts(CheckPosts(users, old(ackSnapshot), old(fwSnapshot), world), world.telegram)
    {
      ghost var ackPosts := AckPosts(users, ackSnapshot, world.acknowledgements);
      ghost var fwPosts := FirmwarePosts(users, fwSnapshot, world.firmwares, world.securityPages, world.html);
      CheckAcknowledgements(world.acknowledgements, world.telegram);
      CheckFirmwares(world.firmwares, world.securityPages, world.html, world.telegram);
      SendInTurn(old(outbox), old(log), ackPosts, fwPosts, world.telegram);
    }
  }

  /** The script body: run the checker when asked to, otherwise treat the request as a webhook update. */
  method Serve(bot: AppleBot, request: Request, world: World)
    requires bot.Valid()
    modifies bot
    ensures bot.Valid()
    ensures IsCheckRequest(request) ==>
      && bot.users == old(bot.users)
      && bot.ackSnapshot == AckAfter(old(bot.ackSnapshot), world.acknowledgements)
      && bot.fwSnapshot == FirmwareSnapshot(old(bot.fwSnapshot), world.firmwares)
      && bot.outbox == old(bot.outbox) + CheckPosts(old(bot.users), old(bot.ackSnapshot), old(bot.fwSnapshot), world)
      && bot.log == old(bot.log) + Attempts(CheckPosts(old(bot.users), old(bot.ackSnapshot), old(bot.fwSnapshot), world), world.telegram)
    ensures !IsCheckRequest(request) ==>
      && bot.users == WebhookUsers(old(bot.users), request.chatId, request.text)
      && bot.ackSnapshot == old(bot.ackSnapshot)
      && bot.fwSnapshot == old(bot.fwSnapshot)
      && bot.outbox == old(bot.outbox) + WebhookPosts(request.chatId, request.text)
      && bot.log == old(bot.log) + Attempts(WebhookPosts(request.chatId, request.text), world.telegram)
  {
    if request.status == Some(CHECK) || request.argument == Some(CHECK) {
      bot.RunChecker(world);
    } else {
      bot.HandleWebhook(request.chatId, request.text, world.telegram);
    }
  }
}
