/** The database setup dialog (src/components/biometric/database-dialog.tsx):
    the name field and the active tab are state that the handlers update;
    a name is usable when it trims to something non-empty. */
module DatabaseDialog {
  import opened JsString
  import Types

  datatype Tab = NewTab | ExistingTab

  /** The `onDbSelect(name, isNew)` callback as the dialog calls it. */
  datatype SelectCall = SelectCall(name: string, isNew: bool)

  /** `dbName.trim()` is truthy exactly when the name is not all whitespace. */
  lemma UsableIffNotBlank(name: string)
    ensures Trim(name) != "" <==> !AllWhitespace(name)
  {
    TrimEmptyIff(name);
  }

  /** The initial name: `session-` and the date part of the ISO timestamp,
      that is the timestamp up to (not including) its first `T`, or all of
      it when it has none. */
  function DefaultName(isoNow: string): (n: string)
    ensures |n| >= 8 && n[..8] == "session-"
    ensures |n| - 8 <= |isoNow| && n[8..] == isoNow[..|n| - 8]
    ensures 'T' !in n[8..]
    ensures |n| - 8 == |isoNow| || isoNow[|n| - 8] == 'T'
  {
    var date := Split(isoNow, 'T')[0];
    SplitHeadIsPrefix(isoNow, 'T');
    assert ("session-" + date)[8..] == date;
    "session-" + date
  }

  /** The first piece of a split is the text before the first separator. */
  lemma {:induction false} SplitHeadIsPrefix(s: string, c: char)
    ensures var h := Split(s, c)[0];
      |h| <= |s| && h == s[..|h|] && (|h| == |s| || s[|h|] == c)
    decreases |s|
  {
    if s != [] && s[0] != c {
      SplitHeadIsPrefix(s[1..], c);
      var rest := Split(s[1..], c);
      assert Split(s, c)[0] == [s[0]] + rest[0];
    }
  }

  /** The Existing tab can be chosen only when there are existing databases. */
  function ExistingTabEnabled(existing: seq<string>): (enabled: bool)
    ensures enabled <==> existing != []
  {
    |existing| > 0
  }

  class Dialog {
    var dbName: string
    var activeTab: Tab

    /** The dialog opens on the New tab with the dated default name. */
    constructor(isoNow: string)
      ensures dbName == DefaultName(isoNow) && activeTab == NewTab
    {
      dbName := DefaultName(isoNow);
      activeTab := NewTab;
    }

    /** The name input's `onChange`. */
    method EditName(value: string)
      modifies this
      ensures dbName == value && activeTab == old(activeTab)
    {
      dbName := value;
    }

    /** `onValueChange` of the tabs; a disabled trigger cannot be chosen. */
    method ChooseTab(tab: Tab, existing: seq<string>)
      modifies this
      ensures activeTab == (if tab == ExistingTab && !ExistingTabEnabled(existing) then old(activeTab) else tab)
      ensures dbName == old(dbName)
    {
      if tab == NewTab || ExistingTabEnabled(existing) {
        activeTab := tab;
      }
    }

    /** `handleCreateAndStart`: a usable name is passed on trimmed, as a new
        database; a blank one triggers nothing. */
    method CreateAndStart() returns (call: Types.Option<SelectCall>)
      ensures call.Some? <==> !AllWhitespace(dbName)
      ensures call.Some? ==> call.value == SelectCall(Trim(dbName), true)
      ensures call.Some? ==> call.value.name != "" && !IsWhitespace(call.value.name[0])
    {
      UsableIffNotBlank(dbName);
      var trimmed := Trim(dbName);
      if trimmed != "" {
        call := Types.Some(SelectCall(trimmed, true));
      } else {
        call := Types.None;
      }
    }

    /** `handleSave`: a usable name is passed on trimmed and the dialog
        switches to the Existing tab; a blank one changes nothing. */
    method Save() returns (saved: Types.Option<string>)
      modifies this
      ensures saved.Some? <==> !AllWhitespace(dbName)
      ensures saved.Some? ==> saved.value == Trim(dbName) && activeTab == ExistingTab
      ensures saved.None? ==> activeTab == old(activeTab)
      ensures dbName == old(dbName)
    {
      UsableIffNotBlank(dbName);
      var trimmed := Trim(dbName);
      if trimmed != "" {
        saved := Types.Some(trimmed);
        activeTab := ExistingTab;
      } else {
        saved := Types.None;
      }
    }

    /** A click on the `k`-th listed database selects it as an existing one. */
    method PickExisting(existing: seq<string>, k: nat) returns (call: SelectCall)
      requires k < |existing|
      ensures call.name == existing[k] && !call.isNew
    {
      call := SelectCall(existing[k], false);
    }
  }
}
