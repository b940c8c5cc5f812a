/**
 * `AppleBot::checkFirmwares`: the latest release per OS, the change list
 * against the saved snapshot, and the notification text. The firmware API
 * answers are a function from device identifier to the firmware list it
 * returned (empty when the fetch or the decoding failed).
 */
module Firmware {
  import opened Wrappers
  import opened Text
  import opened SecurityFixes

  /** One entry of the API's `firmwares` list. */
  datatype FirmwareEntry = FirmwareEntry(version: Bytes, buildid: Bytes)

  /** An OS and the device whose firmware list stands for it. */
  datatype Device = Device(os: Bytes, identifier: Bytes)

  /** One entry `$latest[$os] = "$version ($build)"`. */
  datatype Release = Release(os: Bytes, tag: Bytes)

  /** One entry of `$details`: the joined fix lines and the link. */
  datatype Detail = Detail(os: Bytes, fixes: Bytes, link: Bytes)

  type FirmwareApi = Bytes -> seq<FirmwareEntry>

  type SecurityPages = (Bytes, Bytes) -> DetailSource

  /** The device map `checkFirmwares` installs before it scans, in its order. */
  const DEVICES: seq<Device> := [
    Device(Ascii("iOS"), Ascii("iPhone16,2")),
    Device(Ascii("iPadOS"), Ascii("iPad14,1")),
    Device(Ascii("macOS"), Ascii("Mac14,6")),
    Device(Ascii("bridgeOS"), Ascii("iBridge2,15"))
  ]

  const FALLBACK_LINK: Bytes := SUPPORT_SITE + Ascii("/en-us/HT201222")
  const FIRMWARE_HEADER: Bytes :=
    EncodeChar('\U{1F680}') + Ascii(" <b>Nueva actualizaci") + EncodeChar('ó') + Ascii("n de sistema detectada:</b>\n\n")

  /** `"$version ($build)"`. */
  function Label(fw: FirmwareEntry): Bytes
  {
    fw.version + Ascii(" (") + fw.buildid + Ascii(")")
  }

  /** `$latest`: for each device in order whose firmware list is non-empty, its OS and the label of the first entry. */
  function Latest(devices: seq<Device>, api: FirmwareApi): seq<Release>
  {
    if devices == [] then []
    else
      var d := devices[|devices| - 1];
      var fws := api(d.identifier);
      Latest(devices[..|devices| - 1], api) + (if fws != [] then [Release(d.os, Label(fws[0]))] else [])
  }

  /** `$details[$os]` for one release: the fix lines joined by newlines, and the link or the fallback. */
  function DetailOf(os: Bytes, version: Bytes, src: DetailSource, html: Html): (d: Detail)
    ensures d.os == os
    ensures d.link == FALLBACK_LINK <==> !src.ReleasePage? || SUPPORT_SITE + src.path == FALLBACK_LINK
  {
    var details := SecurityDetails(os, version, src, html);
    Detail(os, Join(NEWLINE, details.fixes), details.url.GetOr(FALLBACK_LINK))
  }

  /** `$details`, built in the same loop as `$latest`. */
  function DetailsFor(devices: seq<Device>, api: FirmwareApi, pages: SecurityPages, html: Html): seq<Detail>
  {
    if devices == [] then []
    else
      var d := devices[|devices| - 1];
      var fws := api(d.identifier);
      DetailsFor(devices[..|devices| - 1], api, pages, html) +
        (if fws != [] then [DetailOf(d.os, fws[0].version, pages(d.os, fws[0].version), html)] else [])
  }

  /** `$saved[$os] ?? ''`. */
  function SavedLabel(saved: map<Bytes, Bytes>, os: Bytes): Bytes
  {
    if os in saved then saved[os] else []
  }

  /** The releases whose saved label differs, in `$latest` order. */
  function Changes(saved: map<Bytes, Bytes>, latest: seq<Release>): seq<Release>
  {
    if latest == [] then []
    else
      var r := latest[|latest| - 1];
      Changes(saved, latest[..|latest| - 1]) + (if SavedLabel(saved, r.os) != r.tag then [r] else [])
  }

  /** `"• $os → $ver"`. */
  function ChangeLine(r: Release): Bytes
  {
    BULLET + r.os + ARROW + r.tag
  }

  function ChangeLines(changes: seq<Release>): (r: seq<Bytes>)
    ensures |r| == |changes|
    ensures forall i :: 0 <= i < |r| ==> r[i] == ChangeLine(changes[i])
  {
    if changes == [] then []
    else ChangeLines(changes[..|changes| - 1]) + [ChangeLine(changes[|changes| - 1])]
  }

  /** The block appended for one `$details` entry. */
  function DetailBlock(d: Detail): Bytes
  {
    Flatten([Ascii("\n\n"), EncodeChar('\U{1F510}'), Ascii(" <b>"), d.os, Ascii(" Detalles de seguridad:</b>\n"),
             d.fixes, NEWLINE, EncodeChar('\U{1F517}'), Ascii(" "), d.link])
  }

  function DetailsText(details: seq<Detail>): Bytes
  {
    if details == [] then []
    else DetailsText(details[..|details| - 1]) + DetailBlock(details[|details| - 1])
  }

  /** The notification: header, the change lines, then a block for every detail entry. */
  function FirmwareMessage(changeLines: seq<Bytes>, details: seq<Detail>): Bytes
  {
    FIRMWARE_HEADER + Join(NEWLINE, changeLines) + DetailsText(details)
  }

  /** `json_encode($latest)` read back: OS to label. */
  function Snapshot(latest: seq<Release>): (m: map<Bytes, Bytes>)
    ensures forall os :: os in m <==> exists i :: 0 <= i < |latest| && latest[i].os == os
  {
    if latest == [] then map[]
    else
      var r := latest[|latest| - 1];
      var prefix := latest[..|latest| - 1];
      var m := Snapshot(prefix)[r.os := r.tag];
      assert forall i :: 0 <= i < |prefix| ==> prefix[i] == latest[i];
      m
  }

  /** The message `checkFirmwares` sends, if any: only when the change list is non-empty. */
  function FirmwareNotice(saved: map<Bytes, Bytes>, latest: seq<Release>, details: seq<Detail>): (r: Option<Bytes>)
    ensures r.Some? <==> Changes(saved, latest) != []
  {
    var changes := Changes(saved, latest);
    if changes == [] then None else Some(FirmwareMessage(ChangeLines(changes), details))
  }

  /** The snapshot after `checkFirmwares`: replaced by `$latest` exactly when something changed. */
  function FirmwareAfter(saved: map<Bytes, Bytes>, latest: seq<Release>): (r: map<Bytes, Bytes>)
    ensures Changes(saved, latest) == [] ==> r == saved
    ensures Changes(saved, latest) != [] ==> r == Snapshot(latest)
  {
    if Changes(saved, latest) == [] then saved else Snapshot(latest)
  }

  /** The notice and the new snapshot, in terms of the change lines the loop collects. */
  lemma NoticeFromLines(saved: map<Bytes, Bytes>, latest: seq<Release>, details: seq<Detail>)
    ensures var lines := ChangeLines(Changes(saved, latest));
      && FirmwareNotice(saved, latest, details) == (if lines == [] then None else Some(FirmwareMessage(lines, details)))
      && FirmwareAfter(saved, latest) == (if lines == [] then saved else Snapshot(latest))
  {
  }

  predicate DistinctDevices(devices: seq<Device>) {
    forall i, j :: 0 <= i < j < |devices| ==> devices[i].os != devices[j].os
  }

  predicate DistinctOses(latest: seq<Release>) {
    forall i, j :: 0 <= i < j < |latest| ==> latest[i].os != latest[j].os
  }

  // ---------------------------------------------------------------------
  // The loops of checkFirmwares.

  /** The device loop (lines 161-180): `$latest` and `$details`. */
  method ScanDevices(api: FirmwareApi, pages: SecurityPages, html: Html)
    returns (latest: seq<Release>, details: seq<Detail>)
    ensures latest == Latest(DEVICES, api)
    ensures details == DetailsFor(DEVICES, api, pages, html)
  {
    latest, details := [], [];
    var i := 0;
    while i < |DEVICES|
      invariant 0 <= i <= |DEVICES|
      invariant latest == Latest(DEVICES[..i], api)
      invariant details == DetailsFor(DEVICES[..i], api, pages, html)
    {
      var d := DEVICES[i];
      var fw := api(d.identifier);
      ScanStep(DEVICES, api, pages, html, i);
      if fw != [] {
        var version, build := fw[0].version, fw[0].buildid;
        latest := latest + [Release(d.os, Label(fw[0]))];
        var url, fixes := GetSecurityDetails(d.os, version, pages(d.os, version), html);
        details := details + [Detail(d.os, Join(NEWLINE, fixes), url.GetOr(FALLBACK_LINK))];
      } else {
        AppendEmpty(latest);
        AppendEmpty(details);
      }
      i := i + 1;
    }
    TakeAll(DEVICES);
  }

  /** One more device extends `$latest` and `$details` by its entry, if its firmware list is non-empty. */
  lemma ScanStep(devices: seq<Device>, api: FirmwareApi, pages: SecurityPages, html: Html, i: nat)
    requires i < |devices|
    ensures var d, fws := devices[i], api(devices[i].identifier);
      && Latest(devices[..i + 1], api) ==
         Latest(devices[..i], api) + (if fws != [] then [Release(d.os, Label(fws[0]))] else [])
      && DetailsFor(devices[..i + 1], api, pages, html) ==
         DetailsFor(devices[..i], api, pages, html) +
           (if fws != [] then [DetailOf(d.os, fws[0].version, pages(d.os, fws[0].version), html)] else [])
  {
    assert devices[..i + 1][..i] == devices[..i];
  }

  /** The change loop (lines 183-188). */
  method CollectChanges(saved: map<Bytes, Bytes>, latest: seq<Release>) returns (changes: seq<Bytes>)
    ensures changes == ChangeLines(Changes(saved, latest))
  {
    changes := [];
    var i := 0;
    while i < |latest|
      invariant 0 <= i <= |latest|
      invariant changes == ChangeLines(Changes(saved, latest[..i]))
    {
      var r := latest[i];
      ChangesSnoc(saved, latest, i);
      if SavedLabel(saved, r.os) != r.tag {
        ChangeLinesSnoc(Changes(saved, latest[..i]), r);
        changes := changes + [ChangeLine(r)];
      } else {
        AppendEmpty(Changes(saved, latest[..i]));
      }
      i := i + 1;
    }
    TakeAll(latest);
  }

  lemma ChangesSnoc(saved: map<Bytes, Bytes>, latest: seq<Release>, i: nat)
    requires i < |latest|
    ensures Changes(saved, latest[..i + 1]) ==
      Changes(saved, latest[..i]) + (if SavedLabel(saved, latest[i].os) != latest[i].tag then [latest[i]] else [])
  {
    assert latest[..i + 1][..i] == latest[..i];
  }

  lemma ChangeLinesSnoc(changes: seq<Release>, r: Release)
    ensures ChangeLines(changes + [r]) == ChangeLines(changes) + [ChangeLine(r)]
  {
    assert (changes + [r])[..|changes|] == changes;
  }

  /** The message assembly (lines 191-196). */
  method ComposeMessage(changes: seq<Bytes>, details: seq<Detail>) returns (msg: Bytes)
    ensures msg == FirmwareMessage(changes, details)
  {
    var start := FIRMWARE_HEADER + Join(NEWLINE, changes);
    msg := start;
    var i := 0;
    while i < |details|
      invariant 0 <= i <= |details|
      invariant msg == start + DetailsText(details[..i])
    {
      DetailsTextSnoc(details, i);
      AppendAssoc(start, DetailsText(details[..i]), DetailBlock(details[i]));
      msg := msg + DetailBlock(details[i]);
      i := i + 1;
    }
    TakeAll(details);
  }

  lemma DetailsTextSnoc(details: seq<Detail>, i: nat)
    requires i < |details|
    ensures DetailsText(details[..i + 1]) == DetailsText(details[..i]) + DetailBlock(details[i])
  {
    assert details[..i + 1][..i] == details[..i];
  }

  // ---------------------------------------------------------------------
  // Properties.

  /** `$latest` holds exactly the devices with a non-empty firmware list, labelled by their first entry. */
  lemma {:induction false} LatestMembership(devices: seq<Device>, api: FirmwareApi, r: Release)
    ensures r in Latest(devices, api) <==> exists i :: 0 <= i < |devices| && FirstLabelled(devices[i], api, r)
  {
    if devices != [] {
      var n := |devices|;
      var prefix := devices[..n - 1];
      var d := devices[n - 1];
      var l, lp := Latest(devices, api), Latest(prefix, api);
      var tail := if api(d.identifier) != [] then [Release(d.os, Label(api(d.identifier)[0]))] else [];
      assert l == lp + tail;
      LatestMembership(prefix, api, r);
      if r in l {
        if r in lp {
          var i :| 0 <= i < n - 1 && FirstLabelled(prefix[i], api, r);
          assert prefix[i] == devices[i];
          assert FirstLabelled(devices[i], api, r);
        } else {
          assert r in tail;
          assert FirstLabelled(devices[n - 1], api, r);
        }
      }
      if i :| 0 <= i < n && FirstLabelled(devices[i], api, r) {
        if i < n - 1 {
          assert prefix[i] == devices[i];
          assert r in lp;
        } else {
          assert r in tail;
        }
      }
    }
  }

  /** Device `d` has a non-empty firmware list whose first entry gives release `r`. */
  predicate FirstLabelled(d: Device, api: FirmwareApi, r: Release)
  {
    d.os == r.os && api(d.identifier) != [] && r.tag == Label(api(d.identifier)[0])
  }

  /** `$details` has one entry per `$latest` entry, for the same OS and in the same order. */
  lemma {:induction false} DetailsAlignWithLatest(devices: seq<Device>, api: FirmwareApi, pages: SecurityPages, html: Html)
    ensures |DetailsFor(devices, api, pages, html)| == |Latest(devices, api)|
    ensures forall i :: 0 <= i < |Latest(devices, api)| ==>
      DetailsFor(devices, api, pages, html)[i].os == Latest(devices, api)[i].os
  {
    if devices != [] {
      DetailsAlignWithLatest(devices[..|devices| - 1], api, pages, html);
    }
  }

  /**
   * Entry i of `$latest` and entry i of `$details` come from the same device:
   * the release is labelled by its first firmware entry and the detail is built
   * from that entry's version.
   */
  lemma DetailsFromSameDevice(devices: seq<Device>, api: FirmwareApi, pages: SecurityPages, html: Html)
    ensures |DetailsFor(devices, api, pages, html)| == |Latest(devices, api)|
    ensures forall i :: 0 <= i < |Latest(devices, api)| ==>
      exists k :: 0 <= k < |devices| && FromDevice(devices[k], api, pages, html,
                                                   Latest(devices, api)[i], DetailsFor(devices, api, pages, html)[i])
  {
    DetailsAlignWithLatest(devices, api, pages, html);
    forall i | 0 <= i < |Latest(devices, api)|
      ensures exists k :: 0 <= k < |devices| && FromDevice(devices[k], api, pages, html,
                                                          Latest(devices, api)[i], DetailsFor(devices, api, pages, html)[i])
    {
      var k := EntryFromDevice(devices, api, pages, html, i);
    }
  }

  /** The device entry i of `$latest` and of `$details` comes from. */
  lemma {:induction false} EntryFromDevice(devices: seq<Device>, api: FirmwareApi, pages: SecurityPages, html: Html, i: nat)
    returns (k: nat)
    requires i < |Latest(devices, api)| == |DetailsFor(devices, api, pages, html)|
    ensures k < |devices|
    ensures FromDevice(devices[k], api, pages, html, Latest(devices, api)[i], DetailsFor(devices, api, pages, html)[i])
  {
    var n := |devices|;
    var prefix := devices[..n - 1];
    var l, ds := Latest(devices, api), DetailsFor(devices, api, pages, html);
    var lp, dp := Latest(prefix, api), DetailsFor(prefix, api, pages, html);
    DetailsAlignWithLatest(prefix, api, pages, html);
    if i < |lp| {
      LastDeviceStep(devices, api, pages, html);
      k := EntryFromDevice(prefix, api, pages, html, i);
      assert prefix[k] == devices[k] && l[i] == lp[i] && ds[i] == dp[i];
    } else {
      LastDeviceEntry(devices, api, pages, html);
      k := n - 1;
    }
  }

  /** The entries of the devices but the last come first, unchanged. */
  lemma LastDeviceStep(devices: seq<Device>, api: FirmwareApi, pages: SecurityPages, html: Html)
    requires devices != []
    ensures var prefix := devices[..|devices| - 1];
      && |Latest(prefix, api)| <= |Latest(devices, api)|
      && |DetailsFor(prefix, api, pages, html)| <= |DetailsFor(devices, api, pages, html)|
      && (forall i :: 0 <= i < |Latest(prefix, api)| ==> Latest(devices, api)[i] == Latest(prefix, api)[i])
      && (forall i :: 0 <= i < |DetailsFor(prefix, api, pages, html)| ==>
            DetailsFor(devices, api, pages, html)[i] == DetailsFor(prefix, api, pages, html)[i])
  {
  }

  /** An entry past those of the devices but the last comes from the last device. */
  lemma LastDeviceEntry(devices: seq<Device>, api: FirmwareApi, pages: SecurityPages, html: Html)
    requires devices != []
    requires |Latest(devices[..|devices| - 1], api)| < |Latest(devices, api)| == |DetailsFor(devices, api, pages, html)|
    ensures var n := |Latest(devices, api)| - 1;
      FromDevice(devices[|devices| - 1], api, pages, html, Latest(devices, api)[n], DetailsFor(devices, api, pages, html)[n])
  {
    DetailsAlignWithLatest(devices[..|devices| - 1], api, pages, html);
  }

  /** `rel` and `det` are the `$latest` and `$details` entries of device `d`. */
  predicate FromDevice(d: Device, api: FirmwareApi, pages: SecurityPages, html: Html, rel: Release, det: Detail)
  {
    var fws := api(d.identifier);
    && fws != []
    && rel == Release(d.os, Label(fws[0]))
    && det == DetailOf(d.os, fws[0].version, pages(d.os, fws[0].version), html)
  }

  /** Distinct OS names give a `$latest` with distinct keys. */
  lemma {:induction false} LatestDistinct(devices: seq<Device>, api: FirmwareApi)
    requires DistinctDevices(devices)
    ensures DistinctOses(Latest(devices, api))
  {
    if devices != [] {
      var n := |devices|;
      var prefix := devices[..n - 1];
      var d := devices[n - 1];
      assert DistinctDevices(prefix) by {
        assert forall i :: 0 <= i < n - 1 ==> prefix[i] == devices[i];
      }
      LatestDistinct(prefix, api);
      var l := Latest(prefix, api);
      forall k | 0 <= k < |l| ensures l[k].os != d.os {
        assert l[k] in l;
        LatestMembership(prefix, api, l[k]);
        var i :| 0 <= i < n - 1 && prefix[i].os == l[k].os;
        assert prefix[i] == devices[i];
      }
    }
  }

  lemma DevicesDistinct()
    ensures DistinctDevices(DEVICES)
  {
  }

  /** A release is in the change list iff it is in `$latest` and its saved label (default '') differs. */
  lemma {:induction false} ChangesMembership(saved: map<Bytes, Bytes>, latest: seq<Release>, r: Release)
    ensures r in Changes(saved, latest) <==> r in latest && SavedLabel(saved, r.os) != r.tag
  {
    if latest != [] {
      var prefix := latest[..|latest| - 1];
      ChangesMembership(saved, prefix, r);
      assert latest == prefix + [latest[|latest| - 1]];
    }
  }

  /** An OS that only the saved snapshot knows never appears in the change list. */
  lemma OnlyLatestOsesChange(saved: map<Bytes, Bytes>, latest: seq<Release>, os: Bytes)
    requires forall i :: 0 <= i < |latest| ==> latest[i].os != os
    ensures forall r :: r in Changes(saved, latest) ==> r.os != os
  {
    forall r | r in Changes(saved, latest) ensures r.os != os {
      ChangesMembership(saved, latest, r);
    }
  }

  /** The change list keeps `$latest` order: it distributes over concatenation. */
  lemma {:induction false} ChangesAppend(saved: map<Bytes, Bytes>, a: seq<Release>, b: seq<Release>)
    ensures Changes(saved, a + b) == Changes(saved, a) + Changes(saved, b)
    decreases |b|
  {
    if b == [] {
      assert a + b == a;
    } else {
      var m, last := |b|, b[|b| - 1];
      assert (a + b)[..|a + b| - 1] == a + b[..m - 1];
      assert (a + b)[|a + b| - 1] == last;
      ChangesAppend(saved, a, b[..m - 1]);
      AppendAssoc(Changes(saved, a), Changes(saved, b[..m - 1]),
                  if SavedLabel(saved, last.os) != last.tag then [last] else []);
    }
  }

  /** The saved snapshot maps every OS of `$latest` to its label. */
  lemma {:induction false} SnapshotLookup(latest: seq<Release>, i: nat)
    requires DistinctOses(latest) && i < |latest|
    ensures latest[i].os in Snapshot(latest) && Snapshot(latest)[latest[i].os] == latest[i].tag
  {
    var n := |latest|;
    var prefix, last := latest[..n - 1], latest[n - 1];
    assert Snapshot(latest) == Snapshot(prefix)[last.os := last.tag];
    if i < n - 1 {
      assert DistinctOses(prefix) by {
        assert forall k :: 0 <= k < n - 1 ==> prefix[k] == latest[k];
      }
      SnapshotLookup(prefix, i);
      assert prefix[i] == latest[i];
      assert latest[i].os != last.os;
    }
  }

  /** Against the snapshot it produced, `$latest` has no changes. */
  lemma SnapshotHasNoChanges(latest: seq<Release>)
    requires DistinctOses(latest)
    ensures Changes(Snapshot(latest), latest) == []
  {
    var c := Changes(Snapshot(latest), latest);
    if c != [] {
      ChangesMembership(Snapshot(latest), latest, c[0]);
      var i :| 0 <= i < |latest| && latest[i] == c[0];
      SnapshotLookup(latest, i);
      assert false;
    }
  }

  /** Re-running the check with the same fetched data sends nothing and keeps the snapshot. */
  lemma FirmwareCheckIdempotent(saved: map<Bytes, Bytes>, latest: seq<Release>, details: seq<Detail>)
    requires DistinctOses(latest)
    ensures FirmwareNotice(FirmwareAfter(saved, latest), latest, details) == None
    ensures FirmwareAfter(FirmwareAfter(saved, latest), latest) == FirmwareAfter(saved, latest)
  {
    if Changes(saved, latest) != [] {
      SnapshotHasNoChanges(latest);
    }
  }

  /** The notification names every change line. */
  lemma NoticeListsChanges(saved: map<Bytes, Bytes>, latest: seq<Release>, details: seq<Detail>, i: nat)
    requires i < |Changes(saved, latest)|
    ensures FirmwareNotice(saved, latest, details).Some?
    ensures IsInfix(ChangeLine(Changes(saved, latest)[i]), FirmwareNotice(saved, latest, details).value)
  {
    var lines := ChangeLines(Changes(saved, latest));
    JoinHasPart(NEWLINE, lines, i);
    InfixWiden(lines[i], Join(NEWLINE, lines), FIRMWARE_HEADER, DetailsText(details));
  }

  /** The notification carries a block for every detail entry, changed or not. */
  lemma MessageHasEveryDetail(changeLines: seq<Bytes>, details: seq<Detail>, i: nat)
    requires i < |details|
    ensures IsInfix(DetailBlock(details[i]), FirmwareMessage(changeLines, details))
  {
    DetailsTextHasBlock(details, i);
    InfixWiden(DetailBlock(details[i]), DetailsText(details), FIRMWARE_HEADER + Join(NEWLINE, changeLines), []);
    assert FIRMWARE_HEADER + Join(NEWLINE, changeLines) + DetailsText(details) + [] == FirmwareMessage(changeLines, details);
  }

  lemma {:induction false} DetailsTextHasBlock(details: seq<Detail>, i: nat)
    requires i < |details|
    ensures IsInfix(DetailBlock(details[i]), DetailsText(details))
  {
    var n := |details|;
    var prefix := details[..n - 1];
    var rest, last := DetailsText(prefix), DetailBlock(details[n - 1]);
    assert DetailsText(details) == rest + last;
    if i == n - 1 {
      InfixOfSelf(last);
      InfixWiden(last, last, rest, []);
      assert rest + last + [] == rest + last;
    } else {
      DetailsTextHasBlock(prefix, i);
      assert prefix[i] == details[i];
      InfixWiden(DetailBlock(details[i]), rest, [], last);
      assert [] + rest + last == rest + last;
    }
  }
}
