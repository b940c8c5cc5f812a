/**
 * `AppleBot::checkAcknowledgements`: compare the first month block of the
 * acknowledgements page with the saved snapshot. Extracting the block
 * (the two regular expressions and `strip_tags`) is outside the model: the
 * check receives the month label and the names, or nothing when no block
 * matched.
 */
module Acknowledgements {
  import opened Wrappers
  import opened Text

  /** `{month, names}` as saved in the acknowledgement snapshot file. */
  datatype AckSnapshot = AckSnapshot(month: Bytes, names: seq<Bytes>)

  const ACK_HEADER: Bytes :=
    EncodeChar('\U{1F514}') + Ascii(" <b>Apple web server security")
      + Ascii(" acknowledgements UPDATE!</b>\n\n")

  /**
   * `$saved['month'] !== $latest['month'] || $saved['names'] !== $latest['names']`;
   * a missing snapshot (`[]`) reads both fields as null and always differs.
   */
  predicate AckChanged(saved: Option<AckSnapshot>, latest: AckSnapshot)
  {
    match saved
    case None => true
    case Some(s) => s.month != latest.month || s.names != latest.names
  }

  /** The notification text: header, month, a blank line, one name per line. */
  function AckMessage(latest: AckSnapshot): Bytes
  {
    ACK_HEADER + latest.month + Ascii("\n\n") + Join(NEWLINE, latest.names)
  }

  /** The message the check sends, if any. */
  function AckNotice(saved: Option<AckSnapshot>, found: Option<AckSnapshot>): (r: Option<Bytes>)
    ensures r.Some? <==> found.Some? && found != saved
  {
    if found.Some? && AckChanged(saved, found.value) then Some(AckMessage(found.value)) else None
  }

  /** The snapshot after the check: overwritten by the found block exactly when it changed. */
  function AckAfter(saved: Option<AckSnapshot>, found: Option<AckSnapshot>): (r: Option<AckSnapshot>)
    ensures found.None? ==> r == saved
    ensures found.Some? ==> r == found
  {
    if found.Some? && AckChanged(saved, found.value) then found else saved
  }

  /** The change test is exactly structural inequality with the saved snapshot. */
  lemma AckChangedIffDiffers(saved: Option<AckSnapshot>, latest: AckSnapshot)
    ensures AckChanged(saved, latest) <==> saved != Some(latest)
  {
  }

  /** Re-running the check on the same page sends nothing and keeps the snapshot. */
  lemma AckCheckIdempotent(saved: Option<AckSnapshot>, found: Option<AckSnapshot>)
    ensures AckNotice(AckAfter(saved, found), found) == None
    ensures AckAfter(AckAfter(saved, found), found) == AckAfter(saved, found)
  {
  }

  /** The notification names the month and every name of the block. */
  lemma AckMessageMentions(latest: AckSnapshot)
    ensures IsInfix(latest.month, AckMessage(latest))
    ensures forall i :: 0 <= i < |latest.names| ==> IsInfix(latest.names[i], AckMessage(latest))
  {
    var tail := Ascii("\n\n") + Join(NEWLINE, latest.names);
    InfixOfSelf(latest.month);
    InfixWiden(latest.month, latest.month, ACK_HEADER, tail);
    assert ACK_HEADER + latest.month + tail == AckMessage(latest);
    forall i | 0 <= i < |latest.names| ensures IsInfix(latest.names[i], AckMessage(latest)) {
      JoinHasPart(NEWLINE, latest.names, i);
      InfixWiden(latest.names[i], Join(NEWLINE, latest.names), ACK_HEADER + latest.month + Ascii("\n\n"), []);
      assert ACK_HEADER + latest.month + Ascii("\n\n") + Join(NEWLINE, latest.names) + [] == AckMessage(latest);
    }
  }
}
