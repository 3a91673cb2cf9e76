/**
 The settings dialog's bookkeeping: how it reads its starting state from the
 two stores (the shelve holding the check and autotry intervals, and the
 "Settings Dialog" group of the application settings holding four flags), and
 how accepting the dialog writes back what changed and reports it as a bit mask.

 Each store is a map from key to the value Python reads back; a missing key is
 absent from the map. The dialog's widgets are a `Ui` value: two spin-box
 numbers and four checkbox states.
 */
module SettingsDlg {

  /** A stored value as Python sees it: `None`, a bool, an int or a str. */
  datatype Stored = NoneValue | BoolValue(b: bool) | IntValue(i: int) | StrValue(s: string)

  type Store = map<string, Stored>

  /** `QSettings.value(key)`: the stored value, or `None` for a missing key. */
  function Get(store: Store, key: string): Stored {
    if key in store then store[key] else NoneValue
  }

  /** Python's `bool(v)`. */
  predicate Truthy(v: Stored) {
    match v
    case NoneValue => false
    case BoolValue(b) => b
    case IntValue(i) => i != 0
    case StrValue(s) => s != ""
  }

  /**
   `str_bool`: a stored flag is off when it is falsy or is exactly the string
   `"false"` (how the settings file gives booleans back); anything else is on.
   */
  function StrBool(v: Stored): (on: bool)
    ensures !on <==> v in {NoneValue, BoolValue(false), IntValue(0), StrValue(""), StrValue("false")}
  {
    Truthy(v) && (!v.StrValue? || v.s != "false")
  }

  /** `"false"` is the only non-empty string read as off; case and other spellings do not matter. */
  lemma StrBoolExamples()
    ensures !StrBool(StrValue("false"))
    ensures StrBool(StrValue("False")) && StrBool(StrValue("0")) && StrBool(StrValue("true"))
    ensures StrBool(IntValue(1)) && StrBool(BoolValue(true))
  {
  }

  /** Python's `n == v` for an int `n`: a bool equals 0 or 1, a str or `None` equals no int. */
  predicate IntEquals(n: int, v: Stored): (equal: bool)
    ensures equal <==> v == IntValue(n) || (0 <= n <= 1 && v == BoolValue(n == 1))
  {
    match v
    case IntValue(i) => i == n
    case BoolValue(b) => n == (if b then 1 else 0)
    case _ => false
  }

  /** The six settings the dialog edits. */
  datatype Setting = Interval | Autotry | Handle | Email | Continue | Accounts {
    /** The two spin boxes, kept in the shelve; the rest are checkboxes kept in the settings group. */
    predicate IsSpin() {
      Interval? || Autotry?
    }
  }

  /** The key each setting is stored under. */
  function Key(s: Setting): string {
    match s
    case Interval => "interval"
    case Autotry => "autotry"
    case Handle => "handle_ppe"
    case Email => "send_emails"
    case Continue => "continue_running"
    case Accounts => "view_accounts"
  }

  /** The bit each setting contributes to the change mask: a power of two within the low six bits. */
  function Flag(s: Setting): (f: bv8)
    ensures f != 0 && f & (f - 1) == 0
    ensures f & 0xC0 == 0
  {
    match s
    case Interval => 0x01
    case Autotry => 0x02
    case Handle => 0x04
    case Email => 0x08
    case Continue => 0x10
    case Accounts => 0x20
  }

  /** Different settings have different keys and disjoint bits, so a bit names exactly one setting. */
  lemma FlagsAndKeysAreDistinct(s: Setting, t: Setting)
    requires s != t
    ensures Flag(s) & Flag(t) == 0
    ensures Key(s) != Key(t)
  {
  }

  /** The dialog's widgets when it is accepted. */
  datatype Ui = Ui(interval: int, autotry: int,
                   handlePpe: bool, sendEmails: bool, continueRunning: bool, viewAccounts: bool)
  {
    /** The value a setting's widget would be stored as. */
    function Widget(s: Setting): Stored {
      match s
      case Interval => IntValue(interval)
      case Autotry => IntValue(autotry)
      case Handle => BoolValue(handlePpe)
      case Email => BoolValue(sendEmails)
      case Continue => BoolValue(continueRunning)
      case Accounts => BoolValue(viewAccounts)
    }
  }

  /**
   Whether a setting's widget disagrees with its store: a spin box when its
   key is missing from the shelve or holds something unequal to the number; a
   checkbox when its state differs from the stored flag read by `str_bool`,
   a missing flag reading as off.
   */
  predicate Changed(data: Store, settings: Store, ui: Ui, s: Setting) {
    if s.IsSpin() then
      Key(s) !in data || !IntEquals(ui.Widget(s).i, data[Key(s)])
    else
      ui.Widget(s).b != StrBool(Get(settings, Key(s)))
  }

  /** `after` holds the same entry for `key` as `before`, or neither holds one. */
  predicate Same(before: Store, after: Store, key: string) {
    (key in before <==> key in after) && (key in before ==> before[key] == after[key])
  }

  /** The store a setting is kept in. */
  function StoreOf(s: Setting, data: Store, settings: Store): Store {
    if s.IsSpin() then data else settings
  }

  /** What `accept` leaves behind: the change mask and both stores. */
  datatype Outcome = Outcome(changes: bv8, data: Store, settings: Store)

  /** The order `accept` checks the settings in. */
  const AcceptOrder: seq<Setting> := [Interval, Autotry, Handle, Email, Continue, Accounts]

  /**
   One check of `accept`: when the setting's widget disagrees with its store,
   write the widget's value under its key and set its bit in the mask.
   */
  function Step(r: Outcome, ui: Ui, s: Setting): (r': Outcome)
    ensures Effect(r, r', ui, s)
  {
    var key := Key(s);
    if s.IsSpin() then
      var value := ui.Widget(s).i;
      if key !in r.data || !IntEquals(value, r.data[key])
      then OrSetsBit(r.changes, Flag(s)); Outcome(r.changes | Flag(s), r.data[key := ui.Widget(s)], r.settings)
      else r
    else
      var checked := ui.Widget(s).b;
      if checked != StrBool(Get(r.settings, key))
      then OrSetsBit(r.changes, Flag(s)); Outcome(r.changes | Flag(s), r.data, r.settings[key := ui.Widget(s)])
      else r
  }

  function AcceptFrom(order: seq<Setting>, r: Outcome, ui: Ui): Outcome {
    if order == [] then r else AcceptFrom(order[1..], Step(r, ui, order[0]), ui)
  }

  /**
   `accept`: starting from an empty mask, check every setting in turn. The
   mask it returns has exactly the bits of the settings whose widget
   disagreed with the store, and nothing above the sixth bit.
   */
  function Accept(data: Store, settings: Store, ui: Ui): (r: Outcome)
    ensures forall s: Setting :: (r.changes & Flag(s) != 0) <==> Changed(data, settings, ui, s)
    ensures r.changes & 0xC0 == 0
  {
    AcceptFromReportsExactlyTheChanges(data, settings, ui);
    AcceptFrom(AcceptOrder, Outcome(0, data, settings), ui)
  }

  /** Whether a setting disagrees depends only on its own entry. */
  lemma ChangedByEntry(r: Outcome, r': Outcome, ui: Ui, s: Setting)
    requires Same(StoreOf(s, r.data, r.settings), StoreOf(s, r'.data, r'.settings), Key(s))
    ensures Changed(r.data, r.settings, ui, s) == Changed(r'.data, r'.settings, ui, s)
  {
  }

  /** A step for one setting leaves every other setting's entry and bit alone. */
  lemma StepFrame(r: Outcome, ui: Ui, t: Setting, s: Setting)
    requires s != t
    ensures var r' := Step(r, ui, t);
      && Same(StoreOf(s, r.data, r.settings), StoreOf(s, r'.data, r'.settings), Key(s))
      && r'.changes & Flag(s) == r.changes & Flag(s)
  {
    FlagsAndKeysAreDistinct(s, t);
  }

  /** Settings not yet to be checked keep their entries and bits. */
  lemma {:induction false} AcceptFromFrame(order: seq<Setting>, r: Outcome, ui: Ui, s: Setting)
    requires s !in order
    ensures var r' := AcceptFrom(order, r, ui);
      && Same(StoreOf(s, r.data, r.settings), StoreOf(s, r'.data, r'.settings), Key(s))
      && r'.changes & Flag(s) == r.changes & Flag(s)
    decreases |order|
  {
    if order != [] {
      StepFrame(r, ui, order[0], s);
      AcceptFromFrame(order[1..], Step(r, ui, order[0]), ui, s);
    }
  }

  /**
   How checking `s` took `r` to `r'`: its bit is set when it was set or the
   setting disagreed in `r`, and it holds its widget's value when it
   disagreed, its old entry otherwise.
   */
  predicate Effect(r: Outcome, r': Outcome, ui: Ui, s: Setting) {
    && (r'.changes & Flag(s) != 0 <==> r.changes & Flag(s) != 0 || Changed(r.data, r.settings, ui, s))
    && (if Changed(r.data, r.settings, ui, s)
        then Key(s) in StoreOf(s, r'.data, r'.settings) && StoreOf(s, r'.data, r'.settings)[Key(s)] == ui.Widget(s)
        else Same(StoreOf(s, r.data, r.settings), StoreOf(s, r'.data, r'.settings), Key(s)))
  }

  lemma OrSetsBit(a: bv8, f: bv8)
    requires f != 0
    ensures (a | f) & f != 0
  {
  }

  /** A setting checked exactly once along the way has the effect of that one check. */
  lemma {:induction false} AcceptFromEffect(order: seq<Setting>, r: Outcome, ui: Ui, s: Setting)
    requires s in order
    requires forall i, j :: 0 <= i < j < |order| ==> order[i] != order[j]
    ensures Effect(r, AcceptFrom(order, r, ui), ui, s)
    decreases |order|
  {
    var r1 := Step(r, ui, order[0]);
    var r' := AcceptFrom(order, r, ui);
    assert r' == AcceptFrom(order[1..], r1, ui);
    if order[0] == s {
      assert s !in order[1..] by {
        forall j | 0 <= j < |order[1..]| ensures order[1..][j] != s {
          assert order[1..][j] == order[j + 1];
        }
      }
      AcceptFromFrame(order[1..], r1, ui, s);
    } else {
      StepFrame(r, ui, order[0], s);
      ChangedByEntry(r, r1, ui, s);
      assert s in order[1..];
      AcceptFromEffect(order[1..], r1, ui, s);
    }
  }

  /** Every setting is checked, once. */
  lemma AcceptOrderChecksEachOnce(s: Setting)
    ensures s in AcceptOrder
    ensures forall i, j :: 0 <= i < j < |AcceptOrder| ==> AcceptOrder[i] != AcceptOrder[j]
  {
  }

  /** Keys of a store that no setting in `order` owns are never written. */
  lemma {:induction false} AcceptFromKeepsOtherKeys(order: seq<Setting>, r: Outcome, ui: Ui, k: string)
    ensures var r' := AcceptFrom(order, r, ui);
      && ((forall i :: 0 <= i < |order| && order[i].IsSpin() ==> Key(order[i]) != k) ==> Same(r.data, r'.data, k))
      && ((forall i :: 0 <= i < |order| && !order[i].IsSpin() ==> Key(order[i]) != k) ==> Same(r.settings, r'.settings, k))
    decreases |order|
  {
    if order != [] {
      AcceptFromKeepsOtherKeys(order[1..], Step(r, ui, order[0]), ui, k);
    }
  }

  /** Checking every setting once sets exactly the bits of the settings that disagreed. */
  lemma AcceptFromReportsExactlyTheChanges(data: Store, settings: Store, ui: Ui)
    ensures var r := AcceptFrom(AcceptOrder, Outcome(0, data, settings), ui);
      && (forall s: Setting :: (r.changes & Flag(s) != 0) <==> Changed(data, settings, ui, s))
      && r.changes & 0xC0 == 0
  {
    var r := AcceptFrom(AcceptOrder, Outcome(0, data, settings), ui);
    forall s: Setting
      ensures (r.changes & Flag(s) != 0) <==> Changed(data, settings, ui, s)
    {
      AcceptOrderChecksEachOnce(s);
      AcceptFromEffect(AcceptOrder, Outcome(0, data, settings), ui, s);
    }
    AcceptFromHighBits(AcceptOrder, Outcome(0, data, settings), ui);
  }

  lemma {:induction false} AcceptFromHighBits(order: seq<Setting>, r: Outcome, ui: Ui)
    requires r.changes & 0xC0 == 0
    ensures AcceptFrom(order, r, ui).changes & 0xC0 == 0
    decreases |order|
  {
    if order != [] {
      AcceptFromHighBits(order[1..], Step(r, ui, order[0]), ui);
    }
  }

  /**
   A changed setting's widget value is written under its key; an unchanged
   setting's entry and every key the dialog does not own are left as they were.
   */
  lemma AcceptWritesExactlyTheChanges(data: Store, settings: Store, ui: Ui)
    ensures var r := Accept(data, settings, ui);
      forall s: Setting ::
        if Changed(data, settings, ui, s) then
          Key(s) in StoreOf(s, r.data, r.settings) && StoreOf(s, r.data, r.settings)[Key(s)] == ui.Widget(s)
        else Same(StoreOf(s, data, settings), StoreOf(s, r.data, r.settings), Key(s))
    ensures var r := Accept(data, settings, ui);
      forall k :: k != "interval" && k != "autotry" ==> Same(data, r.data, k)
    ensures var r := Accept(data, settings, ui);
      forall k :: k != "handle_ppe" && k != "send_emails" && k != "continue_running" && k != "view_accounts" ==>
        Same(settings, r.settings, k)
  {
    var r0 := Outcome(0, data, settings);
    var r := Accept(data, settings, ui);
    assert r == AcceptFrom(AcceptOrder, r0, ui);
    forall s: Setting
      ensures if Changed(data, settings, ui, s) then
          Key(s) in StoreOf(s, r.data, r.settings) && StoreOf(s, r.data, r.settings)[Key(s)] == ui.Widget(s)
        else Same(StoreOf(s, data, settings), StoreOf(s, r.data, r.settings), Key(s))
    {
      AcceptOrderChecksEachOnce(s);
      AcceptFromEffect(AcceptOrder, r0, ui, s);
    }
    forall k
      ensures && (k != "interval" && k != "autotry" ==> Same(data, r.data, k))
        && (k != "handle_ppe" && k != "send_emails" && k != "continue_running" && k != "view_accounts" ==>
              Same(settings, r.settings, k))
    {
      AcceptFromKeepsOtherKeys(AcceptOrder, r0, ui, k);
    }
  }

  /** After accepting, every widget agrees with its store. */
  lemma AcceptLeavesNothingChanged(data: Store, settings: Store, ui: Ui)
    ensures var r := Accept(data, settings, ui);
      forall s: Setting :: !Changed(r.data, r.settings, ui, s)
  {
    var r := Accept(data, settings, ui);
    AcceptWritesExactlyTheChanges(data, settings, ui);
    forall s: Setting
      ensures !Changed(r.data, r.settings, ui, s)
    {
      if !Changed(data, settings, ui, s) {
        ChangedByEntry(Outcome(0, data, settings), r, ui, s);
      }
    }
  }

  /** Two stores that agree on every key are the same store. */
  lemma SameEverywhere(a: Store, b: Store)
    requires forall k :: Same(a, b, k)
    ensures a == b
  {
    forall k | k in a
      ensures k in b && a[k] == b[k]
    {
      assert Same(a, b, k);
    }
    forall k | k in b
      ensures k in a
    {
      assert Same(a, b, k);
    }
  }

  /** Accepting again with the same widgets reports no change and writes nothing. */
  lemma AcceptIsIdempotent(data: Store, settings: Store, ui: Ui)
    ensures var r := Accept(data, settings, ui);
      Accept(r.data, r.settings, ui) == Outcome(0, r.data, r.settings)
  {
    var r := Accept(data, settings, ui);
    AcceptLeavesNothingChanged(data, settings, ui);
    AcceptWritesExactlyTheChanges(r.data, r.settings, ui);
    var r' := Accept(r.data, r.settings, ui);
    forall k
      ensures Same(r.data, r'.data, k) && Same(r.settings, r'.settings, k)
    {
      if k == "interval" {
        assert !Changed(r.data, r.settings, ui, Interval);
      } else if k == "autotry" {
        assert !Changed(r.data, r.settings, ui, Autotry);
      }
      if k == "handle_ppe" {
        assert !Changed(r.data, r.settings, ui, Handle);
      } else if k == "send_emails" {
        assert !Changed(r.data, r.settings, ui, Email);
      } else if k == "continue_running" {
        assert !Changed(r.data, r.settings, ui, Continue);
      } else if k == "view_accounts" {
        assert !Changed(r.data, r.settings, ui, Accounts);
      }
    }
    SameEverywhere(r.data, r'.data);
    SameEverywhere(r.settings, r'.settings);
    assert r'.changes & Flag(Interval) == 0 && r'.changes & Flag(Autotry) == 0;
    assert r'.changes & Flag(Handle) == 0 && r'.changes & Flag(Email) == 0;
    assert r'.changes & Flag(Continue) == 0 && r'.changes & Flag(Accounts) == 0;
  }

  /**
   The settings file gives a written flag back as the string `"true"` or
   `"false"` once it has been saved and read again.
   */
  function Reloaded(settings: Store): (r: Store)
    ensures r.Keys == settings.Keys
    ensures forall k :: k in settings ==> StrBool(r[k]) == StrBool(settings[k])
  {
    map k | k in settings :: match settings[k]
      case BoolValue(b) => StrValue(if b then "true" else "false")
      case v => v
  }

  /** Accepting again after the settings have been saved and reloaded still reports no change. */
  lemma AcceptAfterReloadReportsNothing(data: Store, settings: Store, ui: Ui)
    ensures var r := Accept(data, settings, ui);
      Accept(r.data, Reloaded(r.settings), ui).changes == 0
  {
    var r := Accept(data, settings, ui);
    var r' := Accept(r.data, Reloaded(r.settings), ui);
    AcceptLeavesNothingChanged(data, settings, ui);
    forall s: Setting
      ensures !Changed(r.data, Reloaded(r.settings), ui, s)
    {
      assert !Changed(r.data, r.settings, ui, s);
      assert StrBool(Get(Reloaded(r.settings), Key(s))) == StrBool(Get(r.settings, Key(s)));
    }
    assert r'.changes & Flag(Interval) == 0 && r'.changes & Flag(Autotry) == 0;
    assert r'.changes & Flag(Handle) == 0 && r'.changes & Flag(Email) == 0;
    assert r'.changes & Flag(Continue) == 0 && r'.changes & Flag(Accounts) == 0;
  }

  /** Turning on only email notifications reports only the email bit. */
  lemma EmailOnlyChange()
    ensures var data := map["interval" := IntValue(900), "autotry" := IntValue(900)];
      var settings := map["handle_ppe" := StrValue("true"), "send_emails" := StrValue("false"),
                          "continue_running" := StrValue("false"), "view_accounts" := StrValue("true")];
      Accept(data, settings, Ui(900, 900, true, true, false, true)).changes == Flag(Email)
  {
    var data := map["interval" := IntValue(900), "autotry" := IntValue(900)];
    var settings := map["handle_ppe" := StrValue("true"), "send_emails" := StrValue("false"),
                        "continue_running" := StrValue("false"), "view_accounts" := StrValue("true")];
    var ui := Ui(900, 900, true, true, false, true);
    assert Changed(data, settings, ui, Email);
    forall t: Setting | t != Email
      ensures !Changed(data, settings, ui, t)
    {
    }
    AcceptReportsTheOnlyChange(data, settings, ui, Email);
  }

  /** When exactly one setting disagrees with its store, the mask is exactly that setting's bit. */
  lemma AcceptReportsTheOnlyChange(data: Store, settings: Store, ui: Ui, s: Setting)
    requires forall t: Setting :: Changed(data, settings, ui, t) <==> t == s
    ensures Accept(data, settings, ui).changes == Flag(s)
  {
    MaskOfOneBit(Accept(data, settings, ui).changes, s);
  }

  lemma MaskOfOneBit(m: bv8, s: Setting)
    requires m & 0xC0 == 0
    requires forall t: Setting :: (m & Flag(t) != 0) <==> t == s
    ensures m == Flag(s)
  {
    assert (m & Flag(Interval) != 0 <==> s == Interval) && (m & Flag(Autotry) != 0 <==> s == Autotry);
    assert (m & Flag(Handle) != 0 <==> s == Handle) && (m & Flag(Email) != 0 <==> s == Email);
    assert (m & Flag(Continue) != 0 <==> s == Continue) && (m & Flag(Accounts) != 0 <==> s == Accounts);
  }

  // ---------------------------------------------------------------------------
  // Opening the dialog
  // ---------------------------------------------------------------------------

  /** The interval both spin boxes start from when the shelve has none. */
  const DefaultInterval: int := 900

  /** The dialog's state right after `__init__`, with the settings group as it left it. */
  datatype Opened = Opened(interval: Stored, autotry: Stored,
                           handlePpe: bool, sendEmails: bool, continueRunning: bool, viewAccounts: bool,
                           settings: Store)
  {
    /** The starting state of a checkbox; spin boxes have none. */
    function Checked(s: Setting): bool {
      match s
      case Handle => handlePpe
      case Email => sendEmails
      case Continue => continueRunning
      case Accounts => viewAccounts
      case _ => false
    }
  }

  /**
   The spin boxes' starting values. Both start at 900; the interval is read
   first and a missing interval stops the reading, so then the autotry value
   stays 900 even when the shelve has one.
   */
  function InitialIntervals(data: Store): (r: (Stored, Stored))
    ensures r.0 == (if "interval" in data then data["interval"] else IntValue(DefaultInterval))
    ensures r.1 == (if "interval" in data && "autotry" in data then data["autotry"] else IntValue(DefaultInterval))
  {
    if "interval" !in data then (IntValue(DefaultInterval), IntValue(DefaultInterval))
    else if "autotry" !in data then (data["interval"], IntValue(DefaultInterval))
    else (data["interval"], data["autotry"])
  }

  /**
   `__init__`: the checkboxes start from their stored flags, a missing flag
   leaving the box unticked, except that a missing `view_accounts` starts
   ticked and is written as `True`; no other key is written.
   */
  function Open(data: Store, settings: Store): (r: Opened)
    ensures "interval" in data ==> r.interval == data["interval"]
    ensures "interval" in data && "autotry" in data ==> r.autotry == data["autotry"]
    ensures "interval" in data && "autotry" !in data ==> r.autotry == IntValue(DefaultInterval)
    ensures "interval" !in data ==> r.interval == r.autotry == IntValue(DefaultInterval)
    ensures forall s: Setting :: !s.IsSpin() ==> r.Checked(s) == StrBool(Get(r.settings, Key(s)))
    ensures Get(r.settings, "view_accounts") != NoneValue
    ensures forall k :: k != "view_accounts" ==> (k in r.settings <==> k in settings) && Get(r.settings, k) == Get(settings, k)
    ensures Get(settings, "view_accounts") != NoneValue ==> r.settings == settings
    ensures Get(settings, "view_accounts") == NoneValue ==>
      r.settings == settings["view_accounts" := BoolValue(true)] && r.viewAccounts
  {
    var (interval, autotry) := InitialIntervals(data);
    var view := Get(settings, "view_accounts");
    var settings' := if view != NoneValue then settings else settings["view_accounts" := BoolValue(true)];
    var viewAccounts := if view != NoneValue then StrBool(view) else true;
    Opened(interval, autotry,
           StrBool(Get(settings, "handle_ppe")), StrBool(Get(settings, "send_emails")),
           StrBool(Get(settings, "continue_running")), viewAccounts, settings')
  }

  /** The user changed nothing: the widgets still show what the dialog opened with. */
  predicate Unedited(o: Opened, ui: Ui) {
    && o.interval == IntValue(ui.interval) && o.autotry == IntValue(ui.autotry)
    && o.handlePpe == ui.handlePpe && o.sendEmails == ui.sendEmails
    && o.continueRunning == ui.continueRunning && o.viewAccounts == ui.viewAccounts
  }

  /**
   Opening and accepting without edits reports no checkbox change; the
   interval bit is set exactly when the shelve had no interval, and the
   autotry bit when it had no autotry or, having no interval either, held an
   autotry other than 900 (which is then overwritten with 900).
   */
  lemma UneditedDialogChanges(data: Store, settings: Store, ui: Ui)
    requires Unedited(Open(data, settings), ui)
    ensures var r := Accept(data, Open(data, settings).settings, ui);
      && r.changes & 0x3C == 0
      && (r.changes & Flag(Interval) != 0 <==> "interval" !in data)
      && (r.changes & Flag(Autotry) != 0 <==>
            "autotry" !in data || ("interval" !in data && !IntEquals(DefaultInterval, data["autotry"])))
  {
    var o := Open(data, settings);
    var r := Accept(data, o.settings, ui);
    forall s: Setting | !s.IsSpin()
      ensures !Changed(data, o.settings, ui, s)
    {
      assert o.Checked(s) == ui.Widget(s).b;
    }
    assert r.changes & Flag(Handle) == 0 && r.changes & Flag(Email) == 0;
    assert r.changes & Flag(Continue) == 0 && r.changes & Flag(Accounts) == 0;
  }
}
