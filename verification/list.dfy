/**
 * The character list: what it renders for a list of names, where its edit button
 * navigates, and the two-step delete confirmation. The dialog state is the pair of React
 * state variables (open flag, pending name); the delete request's outcome is a parameter.
 */
module CharacterList {
  import opened Wrappers
  import Uri

  const EmptyMessage := "No characters found. Create one to get started!"

  /** The route the edit button of `name` navigates to. */
  function EditPath(name: string): (p: string)
    ensures |p| >= 6 && p[..6] == "/edit/"
    ensures forall i :: 6 <= i < |p| ==> p[i] != '/' && p[i] != '?' && p[i] != '#'
    ensures Uri.DecodeURIComponent(p[6..]) == Some(name)
  {
    EditPathFacts(name);
    "/edit/" + Uri.EncodeURIComponent(name)
  }

  lemma EditPathFacts(name: string)
    ensures var p := "/edit/" + Uri.EncodeURIComponent(name);
            && |p| >= 6 && p[..6] == "/edit/"
            && (forall i :: 6 <= i < |p| ==> p[i] != '/' && p[i] != '?' && p[i] != '#')
            && Uri.DecodeURIComponent(p[6..]) == Some(name)
  {
    var encoded := Uri.EncodeURIComponent(name);
    var p := "/edit/" + encoded;
    assert p[6..] == encoded;
    Uri.EncodeDecodeRoundTrip(name);
    forall i | 6 <= i < |p|
      ensures p[i] != '/' && p[i] != '?' && p[i] != '#'
    {
      assert p[i] == encoded[i - 6];
      assert Uri.Unreserved(encoded[i - 6]) || encoded[i - 6] == '%';
    }
  }

  /** Distinct names never share an edit route. */
  lemma EditPathInjective(a: string, b: string)
    requires EditPath(a) == EditPath(b)
    ensures a == b
  {
    assert EditPath(a)[6..] == EditPath(b)[6..];
  }

  /** A name made of letters, digits and `-_.!~*'()` appears in its edit route as it is. */
  lemma EditPathPlainName(name: string)
    requires forall i :: 0 <= i < |name| ==> Uri.Unreserved(name[i])
    ensures EditPath(name) == "/edit/" + name
  {
  }

  /** One rendered row: the name with its edit target; every row has a delete button too. */
  datatype Row = Row(text: string, editTarget: string)

  datatype ListView = EmptyState(message: string) | Rows(rows: seq<Row>)

  /** What the component renders for `names`. */
  function Render(names: seq<string>): (v: ListView)
    ensures v.EmptyState? <==> |names| == 0
    ensures v.EmptyState? ==> v.message == EmptyMessage
    ensures v.Rows? ==> |v.rows| == |names|
    ensures v.Rows? ==> forall i :: 0 <= i < |names| ==>
      v.rows[i].text == names[i] && v.rows[i].editTarget == EditPath(names[i])
  {
    if |names| == 0 then EmptyState(EmptyMessage)
    else Rows(seq(|names|, i requires 0 <= i < |names| => Row(names[i], EditPath(names[i]))))
  }

  /** The number of per-character edit (or delete) buttons on screen. */
  function ButtonCount(v: ListView): nat {
    match v
    case EmptyState(_) => 0
    case Rows(rows) => |rows|
  }

  /** An empty list shows only the empty-state message; otherwise one button pair per name. */
  lemma ButtonsMatchNames(names: seq<string>)
    ensures ButtonCount(Render(names)) == |names|
    ensures |names| == 0 ==> Render(names) == EmptyState(EmptyMessage)
  {
  }

  /** The dialog's state: whether it is open, and the name waiting for confirmation. */
  datatype Dialog = Dialog(open: bool, pending: Option<string>)

  const Closed := Dialog(false, None)

  /** A state change, the delete requests it issued, and how often `onCharacterDeleted` ran. */
  datatype Step = Step(dialog: Dialog, deleteCalls: seq<string>, callbacks: nat)

  /** JavaScript truthiness of the pending name: null and the empty string are false. */
  predicate Truthy(pending: Option<string>) {
    pending.Some? && pending.value != ""
  }

  /** `handleDeleteClick(name)`: remember the name and open the dialog; no request. */
  function DeleteClick(d: Dialog, name: string): (r: Step)
    ensures r.dialog.open && r.dialog.pending == Some(name)
    ensures r.deleteCalls == [] && r.callbacks == 0
  {
    Step(Dialog(true, Some(name)), [], 0)
  }

  /**
   * `handleDeleteConfirm`, with the request's outcome as `apiOk`. When a name is pending it
   * issues one delete for it; success closes and clears the dialog and runs the callback if
   * one was given, failure leaves the dialog as it was.
   */
  function DeleteConfirm(d: Dialog, apiOk: bool, hasCallback: bool): (r: Step)
    ensures !Truthy(d.pending) ==> r == Step(d, [], 0)
    ensures Truthy(d.pending) ==> r.deleteCalls == [d.pending.value]
    ensures Truthy(d.pending) && apiOk ==> r.dialog == Closed && r.callbacks == (if hasCallback then 1 else 0)
    ensures Truthy(d.pending) && !apiOk ==> r.dialog == d && r.callbacks == 0
    ensures |r.deleteCalls| <= 1 && r.callbacks <= |r.deleteCalls|
  {
    if !Truthy(d.pending) then Step(d, [], 0)
    else
      var calls := [d.pending.value];
      if apiOk then Step(Closed, calls, if hasCallback then 1 else 0)
      else Step(d, calls, 0)
  }

  /** `handleDeleteCancel`: close and clear; no request. */
  function DeleteCancel(d: Dialog): (r: Step)
    ensures !r.dialog.open && r.dialog.pending.None?
    ensures r.deleteCalls == [] && r.callbacks == 0
  {
    Step(Closed, [], 0)
  }

  /** The dialog is open exactly while a name is pending. */
  predicate Consistent(d: Dialog) {
    d.open <==> d.pending.Some?
  }

  /** The component starts closed, and every handler keeps the dialog consistent. */
  lemma HandlersKeepConsistent(d: Dialog, name: string, apiOk: bool, hasCallback: bool)
    requires Consistent(d)
    ensures Consistent(Closed)
    ensures Consistent(DeleteClick(d, name).dialog)
    ensures Consistent(DeleteConfirm(d, apiOk, hasCallback).dialog)
    ensures Consistent(DeleteCancel(d).dialog)
  {
  }

  /**
   * Clicking delete on one of several names and confirming deletes exactly that name, and
   * on success fires the callback once and closes the dialog.
   */
  lemma ClickThenConfirm(d: Dialog, name: string)
    requires name != ""
    ensures var shown := DeleteClick(d, name).dialog;
            DeleteConfirm(shown, true, true) == Step(Closed, [name], 1)
    ensures var shown := DeleteClick(d, name).dialog;
            DeleteConfirm(shown, false, true) == Step(shown, [name], 0)
  {
  }

  /** Clicking delete and cancelling never issues a request and ends closed. */
  lemma ClickThenCancel(d: Dialog, name: string)
    ensures DeleteCancel(DeleteClick(d, name).dialog) == Step(Closed, [], 0)
  {
  }

  /**
   * A character with the empty name (the backend allows one) cannot be deleted from the
   * list: its pending name is falsy, so confirming does nothing and the dialog stays open.
   */
  lemma EmptyNameNeverDeleted(d: Dialog, apiOk: bool, hasCallback: bool)
    ensures var shown := DeleteClick(d, "").dialog;
            DeleteConfirm(shown, apiOk, hasCallback) == Step(shown, [], 0) && shown.open
  {
  }
}
