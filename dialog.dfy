/**
 * The outcome logic of `dialog_template_idea`, shared by the new-idea and
 * edit-idea dialogs: a title read with the line editor, notes from the
 * notes box, then a y/n confirmation. Window layout and drawing are left out.
 */
module Dialog {
  import opened Wrappers
  import opened Keys
  import opened Text
  import opened LineEditor

  /** The title field's maximum length: dialog width 70 less 4 columns of border and margin. */
  const TITLE_WIDTH: nat := 66

  /** The keys that end the confirmation prompt: y, Y, n, N and ESC. */
  predicate IsAnswer(k: KeyCode) {
    k == KEY_LOWER_Y || k == KEY_UPPER_Y || k == KEY_LOWER_N || k == KEY_UPPER_N || k == ESCAPE
  }

  /** The index of the first answer key, or |keys| when there is none. */
  function FirstAnswer(keys: seq<KeyCode>): (t: nat)
    ensures t <= |keys|
    ensures t < |keys| ==> IsAnswer(keys[t])
    ensures forall i :: 0 <= i < t ==> !IsAnswer(keys[i])
  {
    if keys == [] || IsAnswer(keys[0]) then 0 else 1 + FirstAnswer(keys[1..])
  }

  /** The confirmation loop returns only once an answer key arrives. */
  predicate Answered(keys: seq<KeyCode>) {
    FirstAnswer(keys) < |keys|
  }

  /** The answer given: yes on y or Y, no on n, N or ESC. */
  function Confirmed(keys: seq<KeyCode>): (yes: bool)
    requires Answered(keys)
    ensures !yes <==> keys[FirstAnswer(keys)] == KEY_LOWER_N || keys[FirstAnswer(keys)] == KEY_UPPER_N ||
                      keys[FirstAnswer(keys)] == ESCAPE
  {
    var a := keys[FirstAnswer(keys)];
    a == KEY_LOWER_Y || a == KEY_UPPER_Y
  }

  /** Any key other than an answer is ignored: the prompt keeps waiting. */
  lemma {:induction false} OtherKeysIgnored(k: KeyCode, rest: seq<KeyCode>)
    requires !IsAnswer(k)
    ensures Answered([k] + rest) <==> Answered(rest)
    ensures Answered(rest) ==> Confirmed([k] + rest) == Confirmed(rest)
  {
    assert ([k] + rest)[1..] == rest;
  }

  /** The confirmation loop at the end of the dialog. */
  method ReadConfirmation(keys: seq<KeyCode>) returns (yes: bool)
    requires Answered(keys)
    ensures yes == Confirmed(keys)
  {
    var i := 0;
    while true
      invariant 0 <= i <= FirstAnswer(keys)
      decreases FirstAnswer(keys) - i
    {
      var key := keys[i];
      if key == KEY_LOWER_Y || key == KEY_UPPER_Y {
        return true;
      } else if key == KEY_LOWER_N || key == KEY_UPPER_N || key == ESCAPE {
        return false;
      }
      i := i + 1;
    }
  }

  /**
   * What the user does in one dialog: the keys typed into the title field,
   * what the notes box returns (`None` when ESC cancels it; the box's own
   * editing is not modelled) and the keys typed at the confirmation prompt.
   */
  datatype Input = Input(titleKeys: seq<KeyCode>, notes: Option<string>, confirmKeys: seq<KeyCode>)

  /** The dialog returns: the title field ends, and if title and notes both come back, an answer follows. */
  predicate Complete(d: Input) {
    Terminated(d.titleKeys) &&
    (LineInput(d.titleKeys, TITLE_WIDTH).Some? && d.notes.Some? ==> Answered(d.confirmKeys))
  }

  /** The title kept: a blank entry falls back to the initial title. */
  function KeptTitle(initTitle: string, entered: string): (t: string)
    ensures AllSpace(entered) ==> t == initTitle
    ensures !AllSpace(entered) ==> t == entered
  {
    if Strip(entered) == "" then initTitle else entered
  }

  /** `dialog_template_idea(stdscr, init_title, init_notes, dialog_title)`. */
  function Outcome(initTitle: string, d: Input): (r: Option<(string, string)>)
    requires Complete(d)
    ensures r.Some? ==> Strip(r.value.1) == r.value.1
    ensures r.Some? ==> r.value.0 == initTitle || (!AllSpace(r.value.0) && |r.value.0| <= TITLE_WIDTH)
  {
    match LineInput(d.titleKeys, TITLE_WIDTH)
    case None => None
    case Some(entered) =>
      var title := KeptTitle(initTitle, entered);
      match d.notes
      case None => None
      case Some(raw) =>
        var notes := Strip(raw);
        StripIdempotent(raw);
        if Confirmed(d.confirmKeys) then Some((title, notes)) else None
  }

  /**
   * The dialog is cancelled exactly when the title is cancelled, the notes
   * are cancelled, or the answer is n, N or ESC; otherwise it returns the kept
   * title and the stripped notes.
   */
  lemma OutcomeCases(initTitle: string, d: Input)
    requires Complete(d)
    ensures Outcome(initTitle, d).None? <==>
      LineInput(d.titleKeys, TITLE_WIDTH).None? || d.notes.None? || !Confirmed(d.confirmKeys)
    ensures Outcome(initTitle, d).Some? ==>
      Outcome(initTitle, d).value ==
        (KeptTitle(initTitle, LineInput(d.titleKeys, TITLE_WIDTH).value), Strip(d.notes.value))
  {
  }

  /** The dialog as the program runs it: the title loop, then the notes, then the confirmation loop. */
  method Run(initTitle: string, d: Input) returns (r: Option<(string, string)>)
    requires Complete(d)
    ensures r == Outcome(initTitle, d)
  {
    var newTitle := GetLineWithEsc(d.titleKeys, TITLE_WIDTH);
    if newTitle == None {
      return None;
    }
    var title := newTitle.value;
    if Strip(title) == "" {
      title := initTitle;
    }
    if d.notes == None {
      return None;
    }
    var newNotes := Strip(d.notes.value);
    var yes := ReadConfirmation(d.confirmKeys);
    if yes {
      return Some((title, newNotes));
    }
    return None;
  }

  /**
   * An empty title entry keeps the initial title, and the notes come back
   * stripped: e.g. editing "Old" with notes "  trimmed  " stores ("Old", "trimmed").
   */
  lemma EditWithEmptyTitle(initTitle: string, pre: string, w: string, post: string)
    requires AllSpace(pre) && AllSpace(post)
    requires w != [] && !IsSpace(w[0]) && !IsSpace(w[|w| - 1])
    ensures Complete(Input([NEWLINE], Some(pre + w + post), [KEY_LOWER_Y]))
    ensures Outcome(initTitle, Input([NEWLINE], Some(pre + w + post), [KEY_LOWER_Y])) == Some((initTitle, w))
  {
    var d := Input([NEWLINE], Some(pre + w + post), [KEY_LOWER_Y]);
    assert FirstTerminator(d.titleKeys) == 0;
    assert LineInput(d.titleKeys, TITLE_WIDTH) == Some("");
    assert FirstAnswer(d.confirmKeys) == 0;
    StripPadded(pre, w, post);
  }
}
