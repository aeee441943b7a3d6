/**
 * Small stateful helpers of the view: the status dialog's most-recently-used
 * status list, a document that refuses text beyond a length limit, the
 * toggling selection model of the participants list, the key-password form's
 * decisions and the attachment panel of a message item.
 */
module ComponentUtils {
  import opened Wrappers
  import opened Text

  // ================================================================ status list

  /** How many statuses the status list keeps. */
  const MaxStatusCount: nat := 20

  /** `List.remove(Object)`: drop the first element equal to `x`, if any. */
  function RemoveFirst<T(==)>(s: seq<T>, x: T): (r: seq<T>)
    ensures x !in s ==> r == s
    ensures x in s ==> |r| == |s| - 1
  {
    if s == [] then []
    else if s[0] == x then s[1..]
    else
      assert x in s ==> x in s[1..];
      [s[0]] + RemoveFirst(s[1..], x)
  }

  /** Removal takes exactly one copy of the element, when there is one, and keeps everything else. */
  lemma {:induction false} RemoveFirstMultiset<T>(s: seq<T>, x: T)
    ensures multiset(RemoveFirst(s, x)) == multiset(s) - multiset{x}
  {
    if s != [] {
      assert s == [s[0]] + s[1..];
      if s[0] != x {
        RemoveFirstMultiset(s[1..], x);
      }
    }
  }

  /** Removing the first occurrence, at index `i`, keeps every other element in order. */
  lemma {:induction false} RemoveFirstAt<T>(s: seq<T>, x: T, i: int)
    requires 0 <= i < |s| && s[i] == x
    requires forall j :: 0 <= j < i ==> s[j] != x
    ensures RemoveFirst(s, x) == s[..i] + s[i + 1..]
  {
    if i > 0 {
      var t := s[1..];
      assert s[0] != x && t[i - 1] == x;
      assert forall j :: 0 <= j < i - 1 ==> t[j] == s[j + 1];
      RemoveFirstAt(t, x, i - 1);
      assert [s[0]] + t[..i - 1] == s[..i];
      assert t[i..] == s[i + 1..];
    }
  }

  /** `List.remove(Object)` as the list performs it: search for the element, then close the gap. */
  method RemoveFirstOccurrence<T(==)>(s: seq<T>, x: T) returns (r: seq<T>)
    ensures r == RemoveFirst(s, x)
  {
    var i := 0;
    while i < |s| && s[i] != x
      invariant 0 <= i <= |s|
      invariant forall j :: 0 <= j < i ==> s[j] != x
    {
      i := i + 1;
    }
    if i == |s| {
      r := s;
    } else {
      RemoveFirstAt(s, x, i);
      r := s[..i] + s[i + 1..];
    }
  }

  /** No status appears twice. */
  predicate Distinct<T(==)>(s: seq<T>) {
    forall i, j :: 0 <= i < j < |s| ==> s[i] != s[j]
  }

  /**
   * The stored status list after saving `newStatus`: it moves to the front
   * (its first old occurrence, if any, is dropped) and the list is cut to 20.
   */
  function SavedStatuses(stats: seq<string>, newStatus: string): (r: seq<string>)
    ensures 1 <= |r| <= MaxStatusCount && r[0] == newStatus
    ensures |r| == if |RemoveFirst(stats, newStatus)| + 1 <= MaxStatusCount then |RemoveFirst(stats, newStatus)| + 1 else MaxStatusCount
    ensures multiset(r[1..]) <= multiset(stats)
    ensures r[1..] == RemoveFirst(stats, newStatus)[..|r| - 1]
  {
    var rest := RemoveFirst(stats, newStatus);
    var moved := [newStatus] + rest;
    var r := if |moved| > MaxStatusCount then moved[..MaxStatusCount] else moved;
    assert r[1..] == rest[..|r| - 1];
    SubPrefixMultiset(rest, |r| - 1);
    RemoveFirstMultiset(stats, newStatus);
    r
  }

  lemma SubPrefixMultiset<T>(s: seq<T>, n: nat)
    requires n <= |s|
    ensures multiset(s[..n]) <= multiset(s)
  {
    assert s == s[..n] + s[n..];
  }

  lemma DistinctTail<T>(s: seq<T>)
    requires s != [] && Distinct(s)
    ensures Distinct(s[1..]) && s[0] !in s[1..]
  {
    forall i, j | 0 <= i < j < |s[1..]| ensures s[1..][i] != s[1..][j] {
      assert s[1..][i] == s[i + 1] && s[1..][j] == s[j + 1];
    }
  }

  lemma DistinctCons<T>(x: T, t: seq<T>)
    requires Distinct(t) && x !in t
    ensures Distinct([x] + t)
  {
    forall i, j | 0 <= i < j < |[x] + t| ensures ([x] + t)[i] != ([x] + t)[j] {
      assert ([x] + t)[j] == t[j - 1];
      if i > 0 {
        assert ([x] + t)[i] == t[i - 1];
      }
    }
  }

  lemma InSubMultiset<T>(t: seq<T>, u: seq<T>, y: T)
    requires multiset(t) <= multiset(u) && y in t
    ensures y in u
  {
    assert y in multiset(t);
  }

  /** Removing an element from a list of distinct elements removes it entirely and keeps the rest distinct. */
  lemma {:induction false} RemoveFirstDistinct<T>(s: seq<T>, x: T)
    requires Distinct(s)
    ensures Distinct(RemoveFirst(s, x)) && x !in RemoveFirst(s, x)
  {
    if s != [] {
      DistinctTail(s);
      if s[0] != x {
        RemoveFirstDistinct(s[1..], x);
        var t := RemoveFirst(s[1..], x);
        RemoveFirstMultiset(s[1..], x);
        if s[0] in t {
          InSubMultiset(t, s[1..], s[0]);
          assert false;
        }
        DistinctCons(s[0], t);
      }
    }
  }

  /** Saving keeps a list of distinct statuses distinct, so the new status is listed once. */
  lemma SavedStatusesDistinct(stats: seq<string>, newStatus: string)
    requires Distinct(stats)
    ensures Distinct(SavedStatuses(stats, newStatus))
  {
    var rest := RemoveFirst(stats, newStatus);
    RemoveFirstDistinct(stats, newStatus);
    var r := SavedStatuses(stats, newStatus);
    assert forall k :: 1 <= k < |r| ==> r[k] == rest[k - 1];
    forall i, j | 0 <= i < j < |r| ensures r[i] != r[j] {
      if i == 0 {
        assert r[j] == rest[j - 1] && rest[j - 1] in rest;
      }
    }
  }

  /** Saving the status that is already current leaves the list as it is. */
  lemma SaveCurrentStatusAgain(stats: seq<string>, newStatus: string)
    ensures SavedStatuses(SavedStatuses(stats, newStatus), newStatus) == SavedStatuses(stats, newStatus)
  {
    var r := SavedStatuses(stats, newStatus);
    assert r == [newStatus] + r[1..];
    assert RemoveFirst(r, newStatus) == r[1..];
  }

  /** The status shown as current when the dialog opens: the first stored one, or "". */
  function CurrentStatus(stats: seq<string>): (r: string)
    ensures stats != [] ==> r == stats[0]
    ensures stats == [] ==> r == ""
  {
    if stats == [] then "" else stats[0]
  }

  /** The "previously used" statuses: all but the first, with the first empty one dropped. */
  function PreviousStatuses(stats: seq<string>): (r: seq<string>)
    ensures stats == [] ==> r == []
    ensures stats != [] ==> r == RemoveFirst(stats[1..], "")
    ensures multiset(r) <= multiset(stats)
    ensures stats != [] ==> |r| == |stats| - 1 || |r| == |stats| - 2
  {
    var rest := if stats == [] then [] else stats[1..];
    assert stats != [] ==> stats == [stats[0]] + rest;
    RemoveFirstMultiset(rest, "");
    RemoveFirst(rest, "")
  }

  /** On a list of distinct statuses, the previous ones hold neither the current status nor the empty one. */
  lemma PreviousStatusesExcludeCurrent(stats: seq<string>)
    requires stats != [] && Distinct(stats)
    ensures "" !in PreviousStatuses(stats) && CurrentStatus(stats) !in PreviousStatuses(stats)
  {
    DistinctTail(stats);
    RemoveFirstDistinct(stats[1..], "");
    RemoveFirstMultiset(stats[1..], "");
    var r := PreviousStatuses(stats);
    if stats[0] in r {
      InSubMultiset(r, stats[1..], stats[0]);
      assert false;
    }
  }

  /** Reopening the dialog after saving shows the saved status as current and not among the previous ones. */
  lemma ReopenShowsSavedStatus(stats: seq<string>, newStatus: string)
    requires Distinct(stats)
    ensures CurrentStatus(SavedStatuses(stats, newStatus)) == newStatus
    ensures newStatus !in PreviousStatuses(SavedStatuses(stats, newStatus))
  {
    SavedStatusesDistinct(stats, newStatus);
    PreviousStatusesExcludeCurrent(SavedStatuses(stats, newStatus));
  }

  /** The configured status list, as the configuration stores it. */
  class StatusConfig {
    var statuses: seq<string>

    constructor (statuses: seq<string>)
      ensures this.statuses == statuses
    {
      this.statuses := statuses;
    }
  }

  /** The status dialog: the current status in a text field above the previously used ones. */
  class StatusDialog {
    const conf: StatusConfig
    var statusField: string
    var previous: seq<string>

    constructor (conf: StatusConfig)
      ensures this.conf == conf
      ensures statusField == CurrentStatus(conf.statuses)
      ensures previous == PreviousStatuses(conf.statuses)
    {
      this.conf := conf;
      var stats := conf.statuses;
      var current := "";
      if stats != [] {
        current := stats[0];
        stats := stats[1..];
      }
      stats := RemoveFirstOccurrence(stats, "");
      statusField := current;
      previous := stats;
    }

    /** Store the text of the status field as the newest status. */
    method SaveStatus()
      modifies conf
      ensures conf.statuses == SavedStatuses(old(conf.statuses), statusField)
    {
      var newStatus := statusField;
      var stats := conf.statuses;
      stats := RemoveFirstOccurrence(stats, newStatus);
      stats := [newStatus] + stats;
      if |stats| > MaxStatusCount {
        stats := stats[..MaxStatusCount];
      }
      conf.statuses := stats;
    }
  }

  // ================================================================ text limit document

  datatype InsertOutcome = Ignored | Refused | Inserted | BadLocation

  /**
   * The text and outcome of inserting `str` at `offset` into a document
   * holding `text` with limit `limit`: a null string is ignored; an insert that
   * would make the text longer than the limit, both lengths counted in UTF-16
   * code units, is dropped whole; otherwise the plain document inserts it, an
   * empty string changing nothing and an offset outside the text being a bad
   * location.
   */
  function AfterInsert(text: string, limit: int, offset: int, str: Option<string>): (r: (string, InsertOutcome))
    ensures r.1 == Ignored <==> str.None?
    ensures r.1 == Refused <==> str.Some? && Utf16Length(text) + Utf16Length(str.value) > limit
    ensures r.0 != text ==> r.1 == Inserted && Utf16Length(r.0) <= limit
    ensures r.1 == BadLocation <==>
      str.Some? && Utf16Length(text) + Utf16Length(str.value) <= limit && str.value != [] && !(0 <= offset <= |text|)
    ensures r.1 == Inserted ==> |r.0| == |text| + |str.value| && Utf16Length(r.0) == Utf16Length(text) + Utf16Length(str.value)
    ensures r.1 == Inserted && str.value == [] ==> r.0 == text
    ensures r.1 == Inserted && str.value != [] ==>
      0 <= offset <= |text| && r.0[..offset] == text[..offset] && r.0[offset..offset + |str.value|] == str.value
      && r.0[offset + |str.value|..] == text[offset..]
  {
    match str
    case None => (text, Ignored)
    case Some(s) =>
      if Utf16Length(text) + Utf16Length(s) > limit then (text, Refused)
      else if s == [] then (text, Inserted)
      else if offset < 0 || offset > |text| then (text, BadLocation)
      else
        var t := text[..offset] + s + text[offset..];
        assert t[..offset] == text[..offset] && t[offset..offset + |s|] == s && t[offset + |s|..] == text[offset..];
        InsertedUtf16Length(text, offset, s);
        (t, Inserted)
  }

  /** Inserting a string adds its code units to the text's. */
  lemma InsertedUtf16Length(text: string, offset: int, s: string)
    requires 0 <= offset <= |text|
    ensures Utf16Length(text[..offset] + s + text[offset..]) == Utf16Length(text) + Utf16Length(s)
  {
    Utf16LengthAppend(text[..offset] + s, text[offset..]);
    Utf16LengthAppend(text[..offset], s);
    Utf16LengthAppend(text[..offset], text[offset..]);
    assert text[..offset] + text[offset..] == text;
  }

  /** One character outside the Basic Multilingual Plane is two code units, so it does not fit a limit of one. */
  lemma SupplementaryCharacterExceedsLimitOne()
    ensures AfterInsert("", 1, 0, Some("\U{1F600}")) == ("", Refused)
    ensures AfterInsert("", 1, 0, Some("a")) == ("a", Inserted)
  {
    assert Utf16Length("\U{1F600}") == 2 by {
      assert "\U{1F600}"[..0] == "";
    }
    assert Utf16Length("a") == 1 by {
      assert "a"[..0] == "";
    }
    assert ""[..0] + "a" + ""[0..] == "a";
  }

  /** A text document that refuses any insert beyond `limit` UTF-16 code units. */
  class TextLimitDocument {
    const limit: int
    var text: string

    ghost predicate Valid()
      reads this
    {
      Utf16Length(text) <= limit || text == []
    }

    constructor (limit: int)
      ensures Valid() && this.limit == limit && text == []
    {
      this.limit := limit;
      text := [];
    }

    method InsertString(offset: int, str: Option<string>) returns (outcome: InsertOutcome)
      requires Valid()
      modifies this
      ensures Valid()
      ensures (text, outcome) == AfterInsert(old(text), limit, offset, str)
    {
      if str.None? {
        return Ignored;
      }
      var s := str.value;
      if Utf16Length(text) + Utf16Length(s) > limit {
        return Refused;
      }
      if s == [] {
        return Inserted;
      }
      if offset < 0 || offset > |text| {
        return BadLocation;
      }
      InsertedUtf16Length(text, offset, s);
      text := text[..offset] + s + text[offset..];
      outcome := Inserted;
    }
  }

  // ================================================================ toggle selection

  /** The indices from the smaller to the larger of `a` and `b`. */
  function Interval(a: int, b: int): (r: set<int>)
    ensures forall i :: i in r <==> (a <= i <= b || b <= i <= a)
  {
    var lo, hi := if a <= b then a else b, if a <= b then b else a;
    set i | lo <= i <= hi && InRange(lo, i, hi)
  }

  predicate InRange(lo: int, i: int, hi: int) {
    lo <= i <= hi
  }

  /**
   * The selection after a click selects the interval from `index0` to
   * `index1`: if `index0` was selected the whole interval is deselected,
   * otherwise it is added; -1 for either index changes nothing.
   */
  function Toggled(selected: set<int>, index0: int, index1: int): (r: set<int>)
    ensures index0 == -1 || index1 == -1 ==> r == selected
    ensures forall i :: i !in Interval(index0, index1) ==> (i in r <==> i in selected)
    ensures index0 != -1 && index1 != -1 ==>
      forall i :: i in Interval(index0, index1) ==> (i in r <==> index0 !in selected)
  {
    if index0 == -1 || index1 == -1 then selected
    else if index0 in selected then selected - Interval(index0, index1)
    else selected + Interval(index0, index1)
  }

  /** Clicking the same interval twice brings its first index back to where it was. */
  lemma ToggleTwiceRestoresAnchor(selected: set<int>, index0: int, index1: int)
    ensures index0 in Toggled(Toggled(selected, index0, index1), index0, index1) <==> index0 in selected
  {
    assert index0 in Interval(index0, index1);
  }

  /** The participants list's selection model, whose every selection toggles. */
  class ToggleSelectionModel {
    var selected: set<int>

    ghost predicate Valid()
      reads this
    {
      forall i :: i in selected ==> i >= 0
    }

    constructor ()
      ensures Valid() && selected == {}
    {
      selected := {};
    }

    method SetSelectionInterval(index0: int, index1: int)
      requires Valid()
      requires index0 >= -1 && index1 >= -1
      modifies this
      ensures Valid()
      ensures selected == Toggled(old(selected), index0, index1)
    {
      if index0 == -1 || index1 == -1 {
        return;
      }
      if index0 in selected {
        selected := selected - Interval(index0, index1);
      } else {
        selected := selected + Interval(index0, index1);
      }
    }
  }

  // ================================================================ key password form

  /**
   * The key-password form: whether a password is already set, the old
   * password typed, whether "Set key password" is checked, the new password
   * and its confirmation.
   */
  datatype PassForm = PassForm(passSet: bool, oldPass: seq<char>, setPass: bool, newPass: seq<char>, confirm: seq<char>)

  /**
   * Whether the form may be submitted: an already set password needs the old
   * one typed, and a new password, when asked for, must be non-empty and
   * confirmed.
   */
  function DoneButtonValid(f: PassForm): (r: bool)
    ensures r <==> (!f.passSet || f.oldPass != []) && (!f.setPass || (f.newPass != [] && f.newPass == f.confirm))
  {
    if f.passSet && |f.oldPass| < 1 then false
    else if !f.setPass then true
    else |f.newPass| > 0 && f.newPass == f.confirm
  }

  /**
   * The new password as the form hands it out: empty when none is asked for,
   * otherwise the typed password. The mismatch check's empty result is
   * computed and discarded, so a password that does not match its
   * confirmation is returned too.
   */
  function NewPasswordAsWritten(f: PassForm): (r: Option<seq<char>>)
    ensures r.Some?
    ensures !f.setPass ==> r.value == []
    ensures f.setPass ==> r.value == f.newPass
  {
    if !f.setPass then Some([]) else Some(f.newPass)
  }

  /** The new password as evidently intended: nothing when it does not match its confirmation. */
  function NewPassword(f: PassForm): (r: Option<seq<char>>)
    ensures r.None? <==> f.setPass && f.newPass != f.confirm
    ensures r.Some? && f.setPass ==> r.value == f.newPass == f.confirm
    ensures r.Some? && !f.setPass ==> r.value == []
  {
    if !f.setPass then Some([])
    else if f.newPass != f.confirm then None
    else Some(f.newPass)
  }

  /** The form as written hands out a password that its confirmation contradicts. */
  lemma NewPasswordMismatchReturned()
    ensures var f := PassForm(false, [], true, ['a'], ['b']);
      NewPasswordAsWritten(f) == Some(['a']) && NewPassword(f) == None && !DoneButtonValid(f)
  {
  }

  /** On a form the done button accepts, both versions agree and the password is confirmed. */
  lemma ValidFormPasswordConfirmed(f: PassForm)
    requires DoneButtonValid(f)
    ensures NewPassword(f) == NewPasswordAsWritten(f)
    ensures f.setPass ==> NewPassword(f) == Some(f.confirm) && f.confirm != []
  {
  }

  // ================================================================ attachment panel

  /**
   * What the attachment panel shows: the image path it displays, the status
   * text, the link text and target, and every path handed to the image loader.
   */
  datatype PanelState = PanelState(imagePath: string, status: string, linkText: string, linkTarget: string, imageLoads: seq<string>)

  const EmptyPanel := PanelState("", "", "", "", [])

  /** Showing the image at `path`: nothing happens for the path already shown, else it is loaded. */
  function WithImage(p: PanelState, path: string): (r: PanelState)
    ensures r.imagePath == path
    ensures path == p.imagePath ==> r == p
    ensures path != p.imagePath ==> r.imageLoads == p.imageLoads + [path]
    ensures (r.status, r.linkText, r.linkTarget) == (p.status, p.linkText, p.linkTarget)
  {
    if path == p.imagePath then p else p.(imagePath := path, imageLoads := p.imageLoads + [path])
  }

  const AttachmentPrefix := "Attachment: "

  /** The status line: the text after "Attachment: ". */
  function WithStatus(p: PanelState, text: string): (r: PanelState)
    ensures |r.status| == |AttachmentPrefix| + |text|
    ensures r.status[..|AttachmentPrefix|] == AttachmentPrefix && r.status[|AttachmentPrefix|..] == text
    ensures r.(status := p.status) == p
  {
    var s := AttachmentPrefix + text;
    assert s[..|AttachmentPrefix|] == AttachmentPrefix && s[|AttachmentPrefix|..] == text;
    p.(status := s)
  }

  /** A link to the file: it replaces the status text. */
  function WithLink(p: PanelState, text: string, target: string): (r: PanelState)
    ensures r.linkText == text && r.linkTarget == target && r.status == ""
    ensures r.imagePath == p.imagePath && r.imageLoads == p.imageLoads
  {
    p.(linkText := text, linkTarget := target, status := "")
  }

  /** The attachment panel below a message's text. */
  class AttachmentPanel {
    var imagePath: string
    var status: string
    var linkText: string
    var linkTarget: string
    var imageLoads: seq<string>

    function State(): PanelState
      reads this
    {
      PanelState(imagePath, status, linkText, linkTarget, imageLoads)
    }

    constructor ()
      ensures State() == EmptyPanel
    {
      imagePath, status, linkText, linkTarget, imageLoads := "", "", "", "", [];
    }

    method SetImage(path: string)
      modifies this
      ensures State() == WithImage(old(State()), path)
    {
      if path == imagePath {
        return;
      }
      imagePath := path;
      imageLoads := imageLoads + [path];
    }

    method SetStatus(text: string)
      modifies this
      ensures State() == WithStatus(old(State()), text)
    {
      status := AttachmentPrefix + text;
    }

    method SetLink(text: string, target: string)
      modifies this
      ensures State() == WithLink(old(State()), text, target)
    {
      linkText, linkTarget := text, target;
      status := "";
    }
  }
}
