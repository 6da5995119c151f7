/**
 * The on-screen display: one line of text shown while its countdown, in
 * units of 60 frames, stays positive (`osdText` and `osdShowCount`).
 */
module Messages {
  import opened Basics

  /** `osdText` is a 64-byte buffer: at most 63 characters survive `vsnprintf`. */
  const OsdRoom: nat := 63

  datatype Message = Message(text: string, count: int)

  /** The message is drawn over the frame while its count is positive. */
  predicate Visible(m: Message)
  {
    m.count > 0
  }

  /**
   * `emuShowOsd(cnt, fmt, ...)`: the formatted text, cut to the buffer, with
   * countdown `cnt`. Nothing of the previous message survives.
   */
  function Shown(cnt: int, text: string): (m: Message)
    ensures m.count == cnt
    ensures |m.text| <= OsdRoom && m.text <= text
    ensures |text| <= OsdRoom ==> m.text == text
    ensures |text| > OsdRoom ==> |m.text| == OsdRoom
  {
    Message(Truncated(text, OsdRoom), cnt)
  }

  /** One decay tick: a positive countdown drops by one, anything else stays. */
  function Decayed(m: Message): (r: Message)
    ensures r.text == m.text
    ensures Visible(m) ==> r.count == m.count - 1
    ensures !Visible(m) ==> r == m
    ensures r.count >= 0 || r == m
  {
    if m.count > 0 then Message(m.text, m.count - 1) else m
  }

  /** `k` decay ticks in a row. */
  function DecayedTimes(m: Message, k: nat): Message
    decreases k
  {
    if k == 0 then m else Decayed(DecayedTimes(m, k - 1))
  }

  /**
   * A message shown with countdown `cnt` stays visible for exactly `cnt`
   * decay ticks and then rests at zero; its text never changes.
   */
  lemma {:induction false} CountdownRunsOut(m: Message, k: nat)
    requires m.count >= 0
    ensures DecayedTimes(m, k).text == m.text
    ensures DecayedTimes(m, k).count == if k < m.count then m.count - k else 0
    ensures Visible(DecayedTimes(m, k)) <==> k < m.count
  {
    if k > 0 {
      CountdownRunsOut(m, k - 1);
    }
  }
}
