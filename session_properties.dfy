/**
 * Properties of whole sessions: what any series of button presses can and
 * cannot do to the screen's state and to the requests it issues.
 */
module SessionProperties {
  import opened Ble
  import opened EndpointSelection
  import opened Session

  /** The press is a Connect whose adapter connect resolved. */
  predicate ConnectSucceeds(e: Press) {
    e.ConnectPress? && e.link.Ok?
  }

  /** The press is a Read whose adapter read resolved. */
  predicate ReadSucceeds(e: Press) {
    e.ReadPress? && e.value.Ok?
  }

  /** The press is a Read or a Ping whose discovery offers no endpoint. */
  predicate FindsNoEndpoint(e: Press) {
    (e.ReadPress? || e.PingPress?) && Target(e.discovery).None?
  }

  /** Every read and every write in `t` comes after a settle wait. */
  predicate SettledBeforeTransfers(t: seq<Action>) {
    forall k :: 0 <= k < |t| && IsTransfer(t[k]) ==> Settle(SettleMs) in t[..k]
  }

  predicate NoTransfers(t: seq<Action>) {
    forall k :: 0 <= k < |t| ==> !IsTransfer(t[k])
  }

  /** The invariant that keeps transfers behind a settle wait. */
  predicate SettleInvariant(s: Screen) {
    && SettledBeforeTransfers(s.actions)
    && (s.connected ==> Settle(SettleMs) in s.actions)
  }

  /** The RSSI read never influences the screen, whatever it returns. */
  lemma RssiIgnored(s: Screen, p: Option<Peripheral>, link: Outcome<()>,
                    discovery: Outcome<PeripheralInfo>, rssi1: Outcome<int>, rssi2: Outcome<int>)
    ensures Connect(s, p, link, discovery, rssi1) == Connect(s, p, link, discovery, rssi2)
  {
  }

  /** Once set, `connected` stays set: no press ever clears it. */
  lemma {:induction false} RunConnectedMonotone(s: Screen, p: Option<Peripheral>,
                                                 utf8: seq<byte> -> string, es: seq<Press>)
    requires s.connected
    ensures Run(s, p, utf8, es).connected
    decreases |es|
  {
    if es != [] {
      RunConnectedMonotone(Step(s, p, utf8, es[0]), p, utf8, es[1..]);
    }
  }

  /**
   * After any series of presses, `connected` holds exactly when it held
   * before or some Connect press found a peripheral and its adapter connect
   * resolved. Discovery and RSSI failures after that do not matter.
   */
  lemma {:induction false} RunConnectedIff(s: Screen, p: Option<Peripheral>,
                                            utf8: seq<byte> -> string, es: seq<Press>)
    ensures Run(s, p, utf8, es).connected <==>
              s.connected || (p.Some? && exists i :: 0 <= i < |es| && ConnectSucceeds(es[i]))
    decreases |es|
  {
    if es != [] {
      var s' := Step(s, p, utf8, es[0]);
      assert s'.connected == (s.connected || (p.Some? && ConnectSucceeds(es[0])));
      RunConnectedIff(s', p, utf8, es[1..]);
      if exists i :: 0 <= i < |es| && ConnectSucceeds(es[i]) {
        var i :| 0 <= i < |es| && ConnectSucceeds(es[i]);
        if i > 0 {
          assert ConnectSucceeds(es[1..][i - 1]);
        }
      }
      if exists i :: 0 <= i < |es[1..]| && ConnectSucceeds(es[1..][i]) {
        var i :| 0 <= i < |es[1..]| && ConnectSucceeds(es[1..][i]);
        assert ConnectSucceeds(es[i + 1]);
      }
    }
  }

  /** The screen starts disconnected and is connected only after a successful adapter connect. */
  lemma ConnectedFromStartIff(p: Option<Peripheral>, utf8: seq<byte> -> string, es: seq<Press>)
    ensures Run(Initial, p, utf8, es).connected <==>
              p.Some? && exists i :: 0 <= i < |es| && ConnectSucceeds(es[i])
  {
    RunConnectedIff(Initial, p, utf8, es);
  }

  /**
   * The press is a Read that reaches `setText`: the handler's guard holds in
   * state `t`, discovery offers an endpoint and the adapter read resolved.
   */
  predicate SetsText(t: Screen, p: Option<Peripheral>, e: Press) {
    && e.ReadPress? && e.value.Ok?
    && t.connected && p.Some? && Target(e.discovery).Some?
  }

  /** Running a series of presses and then one more is one more step. */
  lemma {:induction false} RunSnoc(s: Screen, p: Option<Peripheral>, utf8: seq<byte> -> string,
                                    es: seq<Press>, e: Press)
    ensures Run(s, p, utf8, es + [e]) == Step(Run(s, p, utf8, es), p, utf8, e)
    decreases |es|
  {
    if es == [] {
      assert [] + [e] == [e];
    } else {
      assert (es + [e])[0] == es[0];
      assert (es + [e])[1..] == es[1..] + [e];
      RunSnoc(Step(s, p, utf8, es[0]), p, utf8, es[1..], e);
    }
  }

  /** A Read press that passes the guard and finds an endpoint shows the decoding of the bytes read. */
  lemma ReadPressSetsText(s: Screen, p: Option<Peripheral>, utf8: seq<byte> -> string, es: seq<Press>,
                          discovery: Outcome<PeripheralInfo>, bytes: seq<byte>)
    requires Run(s, p, utf8, es).connected && p.Some? && Target(discovery).Some?
    ensures Run(s, p, utf8, es + [ReadPress(discovery, Ok(bytes))]).text == Some(utf8(bytes))
  {
    RunSnoc(s, p, utf8, es, ReadPress(discovery, Ok(bytes)));
  }

  /** Every press other than one reaching `setText` leaves the text as it was. */
  lemma OtherPressKeepsText(s: Screen, p: Option<Peripheral>, utf8: seq<byte> -> string, es: seq<Press>, e: Press)
    requires !SetsText(Run(s, p, utf8, es), p, e)
    ensures Run(s, p, utf8, es + [e]).text == Run(s, p, utf8, es).text
  {
    RunSnoc(s, p, utf8, es, e);
  }

  /**
   * After any series of presses, the text is the decoding of the bytes of
   * the LAST press that reached `setText`, or its old value when no press did.
   */
  lemma {:induction false} RunTextIsLastRead(s: Screen, p: Option<Peripheral>,
                                              utf8: seq<byte> -> string, es: seq<Press>)
    ensures var r := Run(s, p, utf8, es);
            || (r.text == s.text && forall j :: 0 <= j < |es| ==> !SetsText(Run(s, p, utf8, es[..j]), p, es[j]))
            || exists i :: && 0 <= i < |es| && SetsText(Run(s, p, utf8, es[..i]), p, es[i])
                           && r.text == Some(utf8(es[i].value.value))
                           && forall j :: i < j < |es| ==> !SetsText(Run(s, p, utf8, es[..j]), p, es[j])
    decreases |es|
  {
    if es != [] {
      var n := |es| - 1;
      var init, e := es[..n], es[n];
      assert es == init + [e];
      var t := Run(s, p, utf8, init);
      RunSnoc(s, p, utf8, init, e);
      RunTextIsLastRead(s, p, utf8, init);
      forall j | 0 <= j < n ensures es[..j] == init[..j] && es[j] == init[j] { }
      assert es[..n] == init;
      if SetsText(t, p, e) {
        assert Run(s, p, utf8, es).text == Some(utf8(e.value.value));
      } else {
        assert Run(s, p, utf8, es).text == t.text;
        if !(t.text == s.text && forall j :: 0 <= j < n ==> !SetsText(Run(s, p, utf8, init[..j]), p, init[j])) {
          var i :| && 0 <= i < n && SetsText(Run(s, p, utf8, init[..i]), p, init[i])
                   && t.text == Some(utf8(init[i].value.value))
                   && forall j :: i < j < n ==> !SetsText(Run(s, p, utf8, init[..j]), p, init[j]);
          assert SetsText(Run(s, p, utf8, es[..i]), p, es[i]);
        }
      }
    }
  }

  /**
   * When no Read or Ping press ever finds an endpoint, no read or write is
   * issued and the text is never set.
   */
  lemma {:induction false} RunWithoutEndpoint(s: Screen, p: Option<Peripheral>,
                                               utf8: seq<byte> -> string, es: seq<Press>)
    requires NoTransfers(s.actions)
    requires forall i :: 0 <= i < |es| && !es[i].ConnectPress? ==> FindsNoEndpoint(es[i])
    ensures NoTransfers(Run(s, p, utf8, es).actions)
    ensures Run(s, p, utf8, es).text == s.text
    decreases |es|
  {
    if es != [] {
      var s' := Step(s, p, utf8, es[0]);
      assert !es[0].ConnectPress? ==> FindsNoEndpoint(es[0]);
      assert s'.text == s.text;
      var more := s'.actions[|s.actions|..];
      assert s'.actions == s.actions + more;
      assert NoTransfers(more);
      assert NoTransfers(s'.actions) by {
        forall k | 0 <= k < |s'.actions| ensures !IsTransfer(s'.actions[k]) {
          if k >= |s.actions| { assert s'.actions[k] == more[k - |s.actions|]; }
        }
      }
      forall i | 0 <= i < |es[1..]| && !es[1..][i].ConnectPress? ensures FindsNoEndpoint(es[1..][i]) {
        assert es[1..][i] == es[i + 1];
      }
      RunWithoutEndpoint(s', p, utf8, es[1..]);
    }
  }

  /** Appending requests that hold a transfer only when a settle wait already happened keeps the order. */
  lemma AppendKeepsSettled(t: seq<Action>, more: seq<Action>)
    requires SettledBeforeTransfers(t)
    requires !NoTransfers(more) ==> Settle(SettleMs) in t
    ensures SettledBeforeTransfers(t + more)
  {
    var u := t + more;
    forall k | 0 <= k < |u| && IsTransfer(u[k]) ensures Settle(SettleMs) in u[..k] {
      if k < |t| {
        assert u[..k] == t[..k];
      } else {
        assert u[k] == more[k - |t|];
        var j :| 0 <= j < |t| && t[j] == Settle(SettleMs);
        assert u[..k][j] == Settle(SettleMs);
      }
    }
  }

  /** One press keeps the settle invariant. */
  lemma StepKeepsSettleInvariant(s: Screen, p: Option<Peripheral>, utf8: seq<byte> -> string, e: Press)
    requires SettleInvariant(s)
    ensures SettleInvariant(Step(s, p, utf8, e))
  {
    var r := Step(s, p, utf8, e);
    match e
    case ConnectPress(link, discovery, rssi) =>
      if p.Some? {
        var id := p.value.id;
        var more := r.actions[|s.actions|..];
        assert r.actions == s.actions + more;
        assert NoTransfers(more);
        AppendKeepsSettled(s.actions, more);
        if link.Ok? {
          assert r.actions[|s.actions| + 1] == Settle(SettleMs);
        }
      }
    case ReadPress(discovery, value) =>
      if s.connected && p.Some? {
        AppendKeepsSettled(s.actions, r.actions[|s.actions|..]);
        assert r.actions == s.actions + r.actions[|s.actions|..];
      }
    case PingPress(discovery) =>
      if s.connected && p.Some? {
        AppendKeepsSettled(s.actions, r.actions[|s.actions|..]);
        assert r.actions == s.actions + r.actions[|s.actions|..];
      }
  }

  lemma {:induction false} RunKeepsSettleInvariant(s: Screen, p: Option<Peripheral>,
                                                    utf8: seq<byte> -> string, es: seq<Press>)
    requires SettleInvariant(s)
    ensures SettleInvariant(Run(s, p, utf8, es))
    decreases |es|
  {
    if es != [] {
      StepKeepsSettleInvariant(s, p, utf8, es[0]);
      RunKeepsSettleInvariant(Step(s, p, utf8, es[0]), p, utf8, es[1..]);
    }
  }

  /** One press takes a settle wait only when it is a Connect whose adapter connect resolved. */
  lemma StepSettlesOnlyAfterConnect(s: Screen, p: Option<Peripheral>, utf8: seq<byte> -> string, e: Press)
    requires Settle(SettleMs) !in s.actions
    requires Settle(SettleMs) in Step(s, p, utf8, e).actions
    ensures p.Some? && ConnectSucceeds(e)
  {
    var r := Step(s, p, utf8, e);
    var more := r.actions[|s.actions|..];
    assert r.actions == s.actions + more;
    assert Settle(SettleMs) in more;
  }

  /**
   * A settle wait is taken only after some Connect press, with a peripheral,
   * had its adapter connect resolve.
   */
  lemma {:induction false} SettleRequiresConnect(s: Screen, p: Option<Peripheral>,
                                                  utf8: seq<byte> -> string, es: seq<Press>)
    requires Settle(SettleMs) !in s.actions
    requires Settle(SettleMs) in Run(s, p, utf8, es).actions
    ensures p.Some? && exists i :: 0 <= i < |es| && ConnectSucceeds(es[i])
    decreases |es|
  {
    var s' := Step(s, p, utf8, es[0]);
    if Settle(SettleMs) in s'.actions {
      StepSettlesOnlyAfterConnect(s, p, utf8, es[0]);
      assert ConnectSucceeds(es[0]);
    } else {
      SettleRequiresConnect(s', p, utf8, es[1..]);
      var i :| 0 <= i < |es[1..]| && ConnectSucceeds(es[1..][i]);
      assert ConnectSucceeds(es[i + 1]);
    }
  }

  /**
   * Starting from a fresh screen, every characteristic read or write the
   * screen issues comes after the settle wait, and the screen issues one only
   * if some Connect press, with a peripheral, had its adapter connect resolve.
   */
  lemma TransfersFollowSettle(p: Option<Peripheral>, utf8: seq<byte> -> string, es: seq<Press>)
    ensures SettledBeforeTransfers(Run(Initial, p, utf8, es).actions)
    ensures var t := Run(Initial, p, utf8, es).actions;
            (exists k :: 0 <= k < |t| && IsTransfer(t[k])) ==>
              p.Some? && exists i :: 0 <= i < |es| && ConnectSucceeds(es[i])
  {
    RunKeepsSettleInvariant(Initial, p, utf8, es);
    var t := Run(Initial, p, utf8, es).actions;
    if exists k :: 0 <= k < |t| && IsTransfer(t[k]) {
      var k :| 0 <= k < |t| && IsTransfer(t[k]);
      var j :| 0 <= j < k && t[..k][j] == Settle(SettleMs);
      assert t[j] == Settle(SettleMs);
      SettleRequiresConnect(Initial, p, utf8, es);
    }
  }
}
