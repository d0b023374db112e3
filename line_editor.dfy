/**
 * `get_line_with_esc`: read keys until ESC (cancel) or Enter (done), keeping
 * an edit buffer that Backspace shortens and any other key lengthens while
 * it is shorter than the maximum length. Drawing and the cursor are left out.
 */
module LineEditor {
  import opened Wrappers
  import opened Keys

  predicate IsTerminator(ch: KeyCode) {
    ch == ESCAPE || ch == KEY_ENTER || ch == NEWLINE
  }

  predicate IsErase(ch: KeyCode) {
    ch == KEY_BACKSPACE || ch == ASCII_DEL || ch == CTRL_H
  }

  /** The index of the first ESC or Enter key, or |keys| when there is none. */
  function FirstTerminator(keys: seq<KeyCode>): (t: nat)
    ensures t <= |keys|
    ensures t < |keys| ==> IsTerminator(keys[t])
    ensures forall i :: 0 <= i < t ==> !IsTerminator(keys[i])
  {
    if keys == [] || IsTerminator(keys[0]) then 0 else 1 + FirstTerminator(keys[1..])
  }

  /** The reading loop returns only once an ESC or Enter key arrives. */
  predicate Terminated(keys: seq<KeyCode>) {
    FirstTerminator(keys) < |keys|
  }

  /** The buffer after one key that neither cancels nor ends the input. */
  function Edit(s: string, ch: KeyCode, maxLength: nat): (r: string)
    ensures |s| <= maxLength ==> |r| <= maxLength
    ensures IsErase(ch) ==> r <= s && |r| == if s == [] then 0 else |s| - 1
    ensures !IsErase(ch) ==> s <= r && (|r| == |s| + 1 <==> |s| < maxLength) && |r| <= |s| + 1
    ensures |r| > |s| ==> r[|s|] == ch as char
  {
    if IsErase(ch) then (if |s| > 0 then s[..|s| - 1] else s)
    else if |s| < maxLength then s + [ch as char]
    else s
  }

  /** The buffer after a run of keys none of which cancels or ends the input. */
  function Typed(keys: seq<KeyCode>, maxLength: nat): (s: string)
    ensures |s| <= maxLength
  {
    if keys == [] then "" else Edit(Typed(keys[..|keys| - 1], maxLength), keys[|keys| - 1], maxLength)
  }

  /** What the editor returns: `None` if the first terminator is ESC, else the buffer typed before it. */
  function LineInput(keys: seq<KeyCode>, maxLength: nat): (r: Option<string>)
    requires Terminated(keys)
    ensures r.Some? ==> |r.value| <= maxLength
  {
    var t := FirstTerminator(keys);
    if keys[t] == ESCAPE then None else Some(Typed(keys[..t], maxLength))
  }

  /** ESC before any Enter cancels, whatever was typed and whatever follows. */
  lemma EscapeCancels(keys: seq<KeyCode>, i: nat, maxLength: nat)
    requires i < |keys| && keys[i] == ESCAPE
    requires forall j :: 0 <= j < i ==> keys[j] != KEY_ENTER && keys[j] != NEWLINE
    ensures Terminated(keys) && LineInput(keys, maxLength) == None
  {
  }

  /**
   * Enter with no ESC before it ends the input with the buffer typed so far;
   * later keys are never read.
   */
  lemma EnterSubmits(keys: seq<KeyCode>, i: nat, rest: seq<KeyCode>, maxLength: nat)
    requires i < |keys| && (keys[i] == KEY_ENTER || keys[i] == NEWLINE)
    requires forall j :: 0 <= j < i ==> !IsTerminator(keys[j])
    ensures Terminated(keys) && LineInput(keys, maxLength) == Some(Typed(keys[..i], maxLength))
    ensures Terminated(keys[..i + 1] + rest) && LineInput(keys[..i + 1] + rest, maxLength) == LineInput(keys, maxLength)
  {
    var longer := keys[..i + 1] + rest;
    assert forall j :: 0 <= j <= i ==> longer[j] == keys[j];
    assert longer[..i] == keys[..i];
  }

  /** Backspace drops the last character of the buffer, and does nothing on an empty one. */
  lemma EraseStep(keys: seq<KeyCode>, ch: KeyCode, maxLength: nat)
    requires IsErase(ch)
    ensures var before := Typed(keys, maxLength);
      Typed(keys + [ch], maxLength) == if before == [] then [] else before[..|before| - 1]
  {
    assert (keys + [ch])[..|keys|] == keys;
  }

  /** Any other key is appended while the buffer is shorter than the maximum, and dropped after. */
  lemma TypeStep(keys: seq<KeyCode>, ch: KeyCode, maxLength: nat)
    requires !IsErase(ch) && !IsTerminator(ch)
    ensures var before := Typed(keys, maxLength);
      Typed(keys + [ch], maxLength) == if |before| < maxLength then before + [ch as char] else before
  {
    assert (keys + [ch])[..|keys|] == keys;
  }

  /** `get_line_with_esc(win, y, x, max_length)` on the keys the window delivers. */
  method GetLineWithEsc(keys: seq<KeyCode>, maxLength: nat) returns (r: Option<string>)
    requires Terminated(keys)
    ensures r == LineInput(keys, maxLength)
  {
    var s := "";
    var i := 0;
    while true
      invariant 0 <= i <= FirstTerminator(keys)
      invariant s == Typed(keys[..i], maxLength)
      decreases FirstTerminator(keys) - i
    {
      var ch := keys[i];
      if ch == ESCAPE {
        return None;
      } else if ch == KEY_ENTER || ch == NEWLINE {
        break;
      } else if ch == KEY_BACKSPACE || ch == ASCII_DEL || ch == CTRL_H {
        if |s| > 0 {
          s := s[..|s| - 1];
        }
      } else {
        if |s| < maxLength {
          s := s + [ch as char];
        }
      }
      assert keys[..i + 1][..i] == keys[..i];
      i := i + 1;
    }
    return Some(s);
  }
}
