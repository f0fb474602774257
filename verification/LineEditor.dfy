/**
 The line editor of the greeter (greeter/Login.c): a NUL-terminated buffer edited in place, a
 cursor, and the part of the text that fits into the field. The text is seen here as what is
 left and what is right of the cursor.
 */
module LineEditor {

  const NUL: char := '\0'

  /** strlen: the first NUL, or the whole buffer when there is none. */
  function StrLen(s: string): (n: nat)
    ensures n <= |s|
    ensures forall i :: 0 <= i < n ==> s[i] != NUL
    ensures n < |s| ==> s[n] == NUL
  {
    if s == "" || s[0] == NUL then 0 else 1 + StrLen(s[1..])
  }

  lemma {:induction false} StrLenIs(s: string, n: nat)
    requires n < |s| && s[n] == NUL && forall i :: 0 <= i < n ==> s[i] != NUL
    ensures StrLen(s) == n
  {
    if n > 0 {
      StrLenIs(s[1..], n - 1);
    }
  }

  /** `u` is `t` with what starts at `c` moved up, with its NUL at `n`, and `ins` put in the gap. */
  predicate IsInserted(t: string, c: nat, n: nat, ins: string, u: string) {
    && c <= n < |t| && n + |ins| < |u|
    && (forall i :: 0 <= i < c ==> u[i] == t[i])
    && (forall i :: c <= i < c + |ins| ==> u[i] == ins[i - c])
    && (forall i :: c + |ins| <= i <= n + |ins| ==> u[i] == t[i - |ins|])
  }

  /** `ins` put in at c, and what followed moved up with its NUL. */
  lemma InsertedText(t: string, c: nat, n: nat, ins: string, u: string)
    requires IsInserted(t, c, n, ins, u) && StrLen(t) == n && NUL !in ins
    ensures StrLen(u) == n + |ins|
    ensures u[..c + |ins|] == t[..c] + ins && u[c + |ins|..n + |ins|] == t[c..n]
  {
    hide StrLen;
    forall i | 0 <= i < n + |ins| ensures u[i] != NUL {
      assert u[i] == if i < c then t[i] else if i < c + |ins| then ins[i - c] else t[i - |ins|];
    }
    assert u[n + |ins|] == NUL;
    StrLenIs(u, n + |ins|);
  }

  lemma InsertedPrefix(t: string, c: nat, n: nat, ins: string, u: string)
    requires IsInserted(t, c, n, ins, u)
    ensures c + |ins| <= |u| && u[..c + |ins|] == t[..c] + ins
  {
  }

  function FirstNul(s: string): (i: nat)
    requires NUL in s
    ensures i < |s| && s[i] == NUL && forall j :: 0 <= j < i ==> s[j] != NUL
  {
    if s[0] == NUL then 0 else 1 + FirstNul(s[1..])
  }

  /**
   The same two copies with any input: the cursor behind it is within the text exactly when it has no
   NUL. Otherwise the text now ends at the first one.
   */
  lemma CursorWithinTextExactly(t: string, c: nat, n: nat, ins: string, u: string)
    requires IsInserted(t, c, n, ins, u) && StrLen(t) == n
    ensures c + |ins| <= StrLen(u) <==> NUL !in ins
    ensures NUL in ins ==> StrLen(u) == c + FirstNul(ins)
  {
    hide StrLen;
    if NUL in ins {
      var k := FirstNul(ins);
      forall i | 0 <= i < c + k ensures u[i] != NUL {
        assert u[i] == if i < c then t[i] else ins[i - c];
      }
      assert u[c + k] == ins[k];
      StrLenIs(u, c + k);
    } else {
      InsertedText(t, c, n, ins, u);
    }
  }

  /** The character at c taken out, and what followed moved down with its NUL. */
  lemma DeletedText(t: string, c: nat, n: nat, u: string)
    requires c < n < |t| == |u| && StrLen(t) == n
    requires forall i :: 0 <= i < c ==> u[i] == t[i]
    requires forall i :: c <= i < n ==> u[i] == t[i + 1]
    ensures StrLen(u) == n - 1
    ensures u[..c] == t[..c] && u[c..n - 1] == t[c + 1..n]
  {
    StrLenIs(u, n - 1);
  }

  // ---------------------------------------------------------------- the abstract editor

  datatype Text = Text(left: string, right: string)

  function Length(t: Text): nat { |t.left| + |t.right| }

  /** Keyboard actions on one field. `Insert` carries what the key lookup produced. */
  datatype Action =
    | Insert(typed: string)
    | DeleteBackward
    | DeleteForward
    | Backward
    | Forward
    | ToBeginning
    | ToEnd
    | EraseToEnd
    | EraseAll

  function Min(a: int, b: int): int { if a < b then a else b }

  /** `max` is the size of the buffer; two bytes of it are never used for text. */
  function Edit(t: Text, a: Action, max: nat): Text
    requires Length(t) + 2 <= max
  {
    match a
    case Insert(typed) => Text(t.left + Inserted(t, typed, max), t.right)
    case DeleteBackward => if t.left == "" then t else Text(t.left[..|t.left| - 1], t.right)
    case DeleteForward => if t.right == "" then t else Text(t.left, t.right[1..])
    case Backward => if t.left == "" then t else Text(t.left[..|t.left| - 1], t.left[|t.left| - 1..] + t.right)
    case Forward => if t.right == "" then t else Text(t.left + t.right[..1], t.right[1..])
    case ToBeginning => Text("", t.left + t.right)
    case ToEnd => Text(t.left + t.right, "")
    case EraseToEnd => Text(t.left, "")
    case EraseAll => Text("", "")
  }

  /** What is inserted when this is typed: the longest prefix that fits. */
  function Inserted(t: Text, typed: string, max: nat): (ins: string)
    requires Length(t) + 2 <= max
    ensures Length(t) + |ins| + 2 <= max && (|ins| < |typed| ==> Length(t) + |ins| + 2 == max)
  {
    typed[..Min(|typed|, max - 2 - Length(t))]
  }

  /** The action puts no NUL into the text. */
  predicate Typable(t: Text, a: Action, max: nat)
    requires Length(t) + 2 <= max
  {
    a.Insert? ==> NUL !in Inserted(t, a.typed, max)
  }

  predicate IsText(t: Text, max: nat) {
    Length(t) + 2 <= max && NUL !in t.left && NUL !in t.right
  }

  lemma EditKeepsText(t: Text, a: Action, max: nat)
    requires IsText(t, max) && Typable(t, a, max)
    ensures IsText(Edit(t, a, max), max)
  {
  }

  predicate AllTypable(t: Text, actions: seq<Action>, max: nat)
    requires IsText(t, max)
    decreases actions
  {
    actions == [] ||
    (Typable(t, actions[0], max) &&
     (EditKeepsText(t, actions[0], max); AllTypable(Edit(t, actions[0], max), actions[1..], max)))
  }

  function EditAll(t: Text, actions: seq<Action>, max: nat): (r: Text)
    requires IsText(t, max) && AllTypable(t, actions, max)
    ensures IsText(r, max)
    decreases actions
  {
    if actions == [] then t
    else
      EditKeepsText(t, actions[0], max);
      EditAll(Edit(t, actions[0], max), actions[1..], max)
  }

  lemma {:induction false} OneMoreAction(t: Text, actions: seq<Action>, a: Action, max: nat)
    requires IsText(t, max) && AllTypable(t, actions, max) && Typable(EditAll(t, actions, max), a, max)
    ensures AllTypable(t, actions + [a], max)
    ensures EditAll(t, actions + [a], max) == Edit(EditAll(t, actions, max), a, max)
    decreases actions
  {
    if actions == [] {
      EditKeepsText(t, a, max);
      assert [a][1..] == [] && [] + [a] == [a];
    } else {
      EditKeepsText(t, actions[0], max);
      OneMoreAction(Edit(t, actions[0], max), actions[1..], a, max);
      assert (actions + [a])[1..] == actions[1..] + [a];
    }
  }

  function Repeat(a: Action, n: nat): (r: seq<Action>)
    ensures |r| == n && forall i :: 0 <= i < n ==> r[i] == a
  {
    seq(n, _ => a)
  }

  lemma {:induction false} BackspacesDelete(t: Text, n: nat, max: nat)
    requires IsText(t, max) && n <= |t.left|
    ensures AllTypable(t, Repeat(DeleteBackward, n), max)
    ensures EditAll(t, Repeat(DeleteBackward, n), max) == Text(t.left[..|t.left| - n], t.right)
    decreases n
  {
    if n == 0 {
      assert t.left[..|t.left|] == t.left;
    } else {
      var u := Edit(t, DeleteBackward, max);
      assert Repeat(DeleteBackward, n)[1..] == Repeat(DeleteBackward, n - 1);
      EditKeepsText(t, DeleteBackward, max);
      BackspacesDelete(u, n - 1, max);
      assert u.left[..|u.left| - (n - 1)] == t.left[..|t.left| - n];
    }
  }

  /**
   What does not fit is cut to the longest prefix that does, and as many backspaces as characters
   were inserted take the text back.
   */
  lemma InsertThenBackspaces(t: Text, typed: string, max: nat)
    requires IsText(t, max) && NUL !in Inserted(t, typed, max)
    ensures var ins, u := Inserted(t, typed, max), Edit(t, Insert(typed), max);
            && ins <= typed && (ins < typed ==> Length(u) == max - 2)
            && u == Text(t.left + ins, t.right) && IsText(u, max)
            && AllTypable(u, Repeat(DeleteBackward, |ins|), max)
            && EditAll(u, Repeat(DeleteBackward, |ins|), max) == t
  {
    var k := |Inserted(t, typed, max)|;
    var u := Edit(t, Insert(typed), max);
    EditKeepsText(t, Insert(typed), max);
    BackspacesDelete(u, k, max);
    assert u.left[..|u.left| - k] == t.left;
  }

  predicate Moves(a: Action) {
    a.Backward? || a.Forward? || a.ToBeginning? || a.ToEnd?
  }

  /** Moving never changes the text. */
  lemma {:induction false} MovesKeepTheText(t: Text, actions: seq<Action>, max: nat)
    requires IsText(t, max) && forall i :: 0 <= i < |actions| ==> Moves(actions[i])
    ensures AllTypable(t, actions, max)
    ensures var u := EditAll(t, actions, max); u.left + u.right == t.left + t.right
    decreases actions
  {
    if actions != [] {
      var u := Edit(t, actions[0], max);
      EditKeepsText(t, actions[0], max);
      assert u.left + u.right == t.left + t.right by {
        assert t.left == t.left[..|t.left|] && t.right == t.right[..];
        if actions[0] == Backward && t.left != "" {
          assert t.left == t.left[..|t.left| - 1] + t.left[|t.left| - 1..];
        } else if actions[0] == Forward && t.right != "" {
          assert t.right == t.right[..1] + t.right[1..];
        }
      }
      MovesKeepTheText(u, actions[1..], max);
    }
  }

  /** The text with its cursor, as an index into the whole. */
  function Whole(t: Text): string {
    t.left + t.right
  }

  /** The two-sided text is an ordinary one with a cursor in it, and a move shifts the cursor as far as the text goes. */
  lemma MovesAsCursor(t: Text, a: Action, max: nat)
    requires IsText(t, max) && Moves(a)
    ensures var s, c, u := Whole(t), |t.left|, Edit(t, a, max);
            && Whole(u) == s
            && |u.left| == match a
                           case ToBeginning => 0
                           case ToEnd => |s|
                           case Backward => if c == 0 then 0 else c - 1
                           case _ => if c == |s| then c else c + 1
  {
    var c := |t.left|;
    assert c > 0 ==> t.left == t.left[..c - 1] + t.left[c - 1..];
    assert t.right != "" ==> t.right == t.right[..1] + t.right[1..];
  }

  /** Deletions take out the character before the cursor or at it, erasures what follows it or all of it. */
  lemma DeletionsAsCursor(t: Text, a: Action, max: nat)
    requires IsText(t, max) && !Moves(a) && !a.Insert?
    ensures var s, c, u := Whole(t), |t.left|, Edit(t, a, max);
            match a
            case DeleteBackward => if c == 0 then u == t else Whole(u) == s[..c - 1] + s[c..] && |u.left| == c - 1
            case DeleteForward => if c == |s| then u == t else Whole(u) == s[..c] + s[c + 1..] && |u.left| == c
            case EraseToEnd => Whole(u) == s[..c] && |u.left| == c
            case _ => Whole(u) == ""
  {
    var s, c := Whole(t), |t.left|;
    assert s[..c] == t.left && s[c..] == t.right;
    assert a == DeleteBackward && c > 0 ==> s[..c - 1] == t.left[..c - 1];
    assert a == DeleteForward && t.right != "" ==> s[c + 1..] == t.right[1..];
  }

  /** Every place in the text can be reached: from its beginning by as many steps forward. */
  lemma {:induction false} ForwardReaches(t: Text, n: nat, max: nat)
    requires IsText(t, max) && t.left == "" && n <= |t.right|
    ensures AllTypable(t, Repeat(Forward, n), max)
    ensures EditAll(t, Repeat(Forward, n), max) == Text(t.right[..n], t.right[n..])
    decreases n
  {
    if n == 0 {
    } else {
      ForwardReaches(t, n - 1, max);
      var u := EditAll(t, Repeat(Forward, n - 1), max);
      OneMoreAction(t, Repeat(Forward, n - 1), Forward, max);
      assert Repeat(Forward, n) == Repeat(Forward, n - 1) + [Forward];
      assert u.left + u.right[..1] == t.right[..n] && u.right[1..] == t.right[n..];
    }
  }

  // ---------------------------------------------------------------- the field

  /** How the value of a prompt is shown. */
  datatype Echo = EchoOn | EchoOff(stars: bool)

  class Field {
    const text: array<char>
    const max: nat
    const echo: Echo
    const starChar: char
    /** Width of the drawing area, and of a string drawn in it. */
    const width: int
    const textWidth: string -> int
    var cursor: nat
    var shownStart: nat
    var shownEnd: nat

    /** The buffer is terminated with a byte to spare, and the cursor is in the text. */
    ghost predicate Sound()
      reads this, text
    {
      && text.Length == max && max >= 2
      && cursor <= StrLen(text[..]) <= max - 2
    }

    ghost predicate Valid()
      reads this, text
    {
      Sound() && shownStart <= cursor
    }

    ghost function View(): (t: Text)
      requires Sound()
      reads this, text
      ensures IsText(t, max)
    {
      Text(text[..cursor], text[cursor..StrLen(text[..])])
    }

    /** The state `ResetLogin` leaves: an empty buffer and everything at 0. */
    constructor (max: nat, echo: Echo, starChar: char, width: int, textWidth: string -> int)
      requires max >= 2
      ensures Valid() && fresh(text) && View() == Text("", "")
    {
      this.text := new char[max](_ => NUL);
      this.max := max;
      this.echo := echo;
      this.starChar := starChar;
      this.width := width;
      this.textWidth := textWidth;
      cursor := 0;
      shownStart := 0;
      shownEnd := 0;
      new;
      StrLenIs(text[..], 0);
    }

    method Strlen() returns (n: nat)
      requires StrLen(text[..]) < text.Length
      ensures n == StrLen(text[..])
    {
      n := 0;
      while text[n] != NUL
        invariant n <= StrLen(text[..])
        decreases text.Length - n
      {
        n := n + 1;
      }
    }

    /** The characters as drawn: themselves, or one star each. */
    function Drawn(s: string): (r: string)
      ensures |r| == |s|
    {
      if echo == EchoOff(true) then seq(|s|, _ => starChar) else s
    }

    /** One character more, on the left up to the old start or on the right of the cursor, and the window would not fit. */
    predicate IsTight(s: string, start: nat, lo: nat, hi: nat)
      requires start <= lo <= hi <= |s|
      reads `cursor
    {
      || (lo == start && hi == |s|)
      || (lo > start && hi == |s| && textWidth(s[lo - 1..]) > width)
      || (lo == cursor && hi < |s| && textWidth(s[lo..hi + 1]) > width)
    }

    /** The window from the scroll start on, moved and cut until it fits and holds the cursor. */
    method Fit(s: string) returns (offset: nat, textlen: nat)
      requires shownStart <= cursor <= |s|
      ensures shownStart <= offset <= cursor <= offset + textlen <= |s| && IsTight(s, shownStart, offset, offset + textlen)
      ensures textlen > 0 ==> textWidth(s[offset..offset + textlen]) <= width
    {
      offset := shownStart;
      textlen := |s| - offset;
      while textlen > 0 && textWidth(s[offset..offset + textlen]) > width
        invariant shownStart <= offset <= cursor <= offset + textlen <= |s|
        invariant offset < cursor ==> offset + textlen == |s|
        invariant IsTight(s, shownStart, offset, offset + textlen)
        decreases textlen
      {
        assert offset + textlen == |s| ==> s[offset..offset + textlen] == s[offset..];
        if offset < cursor {
          offset := offset + 1;
        }
        textlen := textlen - 1;
      }
    }

    /** What is to be drawn, from here or from the scroll start on, does not fit behind what stands there. */
    ghost predicate Overflows(from: nat)
      requires Valid() && from <= StrLen(text[..])
      reads this, text
    {
      var s := Drawn(text[..StrLen(text[..])]);
      echo != EchoOff(false)
      && if from > shownStart then textWidth(s[from..]) > width - textWidth(s[..from]) else textWidth(s[shownStart..]) > width
    }

    /**
     `DrawValue`: when the text from `from` on does not fit, and only then, the window is chosen anew; then it
     fits, lies within the text, contains the cursor, and could not be larger by a character.
     */
    method DrawValue(from: nat)
      requires Valid() && from <= StrLen(text[..])
      modifies `shownStart, `shownEnd
      ensures Valid()
      ensures !old(Overflows(from)) ==> shownStart == old(shownStart) && shownEnd == old(shownEnd)
      ensures old(Overflows(from)) ==>
                && old(shownStart) <= shownStart && ShowsCursor()
                && IsTight(Drawn(text[..StrLen(text[..])]), old(shownStart), shownStart, shownEnd)
    {
      hide StrLen, Drawn, IsTight;
      if echo == EchoOff(false) {
        return;
      }
      var len := Strlen();
      var s := Drawn(text[..len]);
      var curoff := if from > shownStart then textWidth(s[..from]) else 0;
      var offset := if from > shownStart then from else shownStart;
      if textWidth(s[offset..]) > width - curoff {
        var textlen;
        offset, textlen := Fit(s);
        shownStart := offset;
        shownEnd := offset + textlen;
      }
    }

    /** The window is inside the text, holds the cursor, and fits (an empty window always does). */
    ghost predicate ShowsCursor()
      reads this, text
    {
      var len := StrLen(text[..]);
      && shownStart <= cursor <= shownEnd <= len
      && (shownStart < shownEnd ==> textWidth(Drawn(text[..len])[shownStart..shownEnd]) <= width)
    }

    /** memmove within the buffer. */
    method MoveBytes(dst: nat, src: nat, n: nat)
      requires dst + n <= text.Length && src + n <= text.Length
      modifies text
      ensures forall i :: dst <= i < dst + n ==> text[i] == old(text[i - dst + src])
      ensures forall i :: 0 <= i < text.Length && !(dst <= i < dst + n) ==> text[i] == old(text[i])
    {
      forall i | 0 <= i < n {
        text[dst + i] := text[src + i];
      }
    }

    method PutBytes(at: nat, s: string)
      requires at + |s| <= text.Length
      modifies text
      ensures forall i :: at <= i < at + |s| ==> text[i] == s[i - at]
      ensures forall i :: 0 <= i < text.Length && !(at <= i < at + |s|) ==> text[i] == old(text[i])
    {
      forall i | 0 <= i < |s| {
        text[at + i] := s[i];
      }
    }

    /** The two copies of `InsertChar`: open a gap at the cursor and fill it. */
    method MoveAndPut(n: nat, ins: string)
      requires cursor <= n < text.Length && n + |ins| < text.Length
      modifies text
      ensures IsInserted(old(text[..]), cursor, n, ins, text[..])
    {
      MoveBytes(cursor + |ins|, cursor, n - cursor + 1);
      PutBytes(cursor, ins);
    }

    /** What the two copies leave in the buffer: a NUL in the input ends the text. */
    method InsertBytes(n: nat, ins: string)
      requires Sound() && n == StrLen(text[..]) && n + |ins| <= max - 2
      modifies text
      ensures Sound() && (cursor + |ins| <= StrLen(text[..]) <==> NUL !in ins)
      ensures text[..cursor + |ins|] == old(View().left) + ins
      ensures NUL !in ins ==> StrLen(text[..]) == n + |ins| && text[cursor + |ins|..n + |ins|] == old(View().right)
      ensures NUL in ins ==> StrLen(text[..]) == cursor + FirstNul(ins)
    {
      hide StrLen, IsInserted, FirstNul;
      ghost var t := text[..];
      MoveAndPut(n, ins);
      InsertedPrefix(t, cursor, n, ins, text[..]);
      CursorWithinTextExactly(t, cursor, n, ins, text[..]);
      if NUL !in ins {
        InsertedText(t, cursor, n, ins, text[..]);
      } else {
        assert cursor + FirstNul(ins) <= n + |ins|;
      }
    }

    /**
     Input cut to what fits and put in at the cursor. Afterwards the cursor is in the text exactly when
     no NUL was put in; if one was, the text ends at the first.
     */
    method InsertChar(typed: string)
      requires Valid()
      modifies this, text
      ensures var ins := Inserted(old(View()), typed, max);
              && cursor == old(cursor) + |ins|
              && (cursor <= StrLen(text[..]) <==> NUL !in ins)
              && (NUL !in ins ==> Valid() && View() == Edit(old(View()), Insert(typed), max))
              && (NUL in ins ==> StrLen(text[..]) == old(cursor) + FirstNul(ins))
    {
      hide StrLen, ShowsCursor, Inserted, Overflows, IsTight, Drawn;
      var n, len := RoomFor(typed);
      if len != 0 {
        InsertBytes(n, typed[..len]);
        DrawValue(cursor);
        cursor := cursor + len;
      } else {
        assert View().left + typed[..0] == View().left;
      }
    }

    /** The length of the text, and how much of the input still fits. */
    method RoomFor(typed: string) returns (n: nat, len: nat)
      requires Valid()
      ensures n == StrLen(text[..]) && len <= |typed| && typed[..len] == Inserted(View(), typed, max)
      ensures n + len + 2 <= max
    {
      hide StrLen;
      n := Strlen();
      len := |typed|;
      if len + n >= max - 1 {
        len := max - n - 2;
      }
      assert Length(View()) == n;
    }

    /** The copy of `realizeDeleteChar`: the gap at the cursor is closed. */
    method RemoveByte(n: nat)
      requires Sound() && n == StrLen(text[..]) && cursor < n
      modifies text
      ensures Sound() && View() == Text(old(View().left), old(View().right)[1..])
    {
      hide StrLen;
      ghost var t := text[..];
      MoveBytes(cursor, cursor + 1, n - cursor);
      DeletedText(t, cursor, n, text[..]);
    }

    /** `realizeDeleteChar`; one step back may just have put the cursor left of the window. */
    method DeleteChar()
      requires Sound() && (shownStart > cursor ==> cursor < StrLen(text[..]))
      modifies this, text
      ensures Valid() && View() == Edit(old(View()), DeleteForward, max)
    {
      var redrawFrom := cursor;
      var n := Strlen();
      hide StrLen, Inserted, ShowsCursor;
      if cursor < n {
        if redrawFrom < shownStart {
          redrawFrom := 0;
          shownStart := cursor;
        }
        RemoveByte(n);
        assert redrawFrom <= cursor;
        DrawValue(redrawFrom);
      }
    }

    method DeleteBackwardChar()
      requires Valid()
      modifies this, text
      ensures Valid() && View() == Edit(old(View()), DeleteBackward, max)
    {
      if cursor > 0 {
        cursor := cursor - 1;
        DeleteChar();
      }
    }

    method DeleteForwardChar()
      requires Valid()
      modifies this, text
      ensures Valid() && View() == Edit(old(View()), DeleteForward, max)
    {
      DeleteChar();
    }

    method MoveBackwardChar()
      requires Valid()
      modifies this
      ensures Valid() && View() == Edit(old(View()), Backward, max)
    {
      hide Overflows, IsTight, ShowsCursor, StrLen;
      if cursor > 0 {
        cursor := cursor - 1;
      }
      if cursor < shownStart {
        shownStart := cursor;
        DrawValue(0);
      }
    }

    method MoveForwardChar()
      requires Valid()
      modifies this
      ensures Valid() && View() == Edit(old(View()), Forward, max)
    {
      hide Overflows, IsTight, ShowsCursor, StrLen;
      var n := Strlen();
      if cursor < n {
        cursor := cursor + 1;
        if shownEnd < cursor {
          DrawValue(0);
        }
      }
    }

    method MoveToBegining()
      requires Valid()
      modifies this
      ensures Valid() && View() == Edit(old(View()), ToBeginning, max)
    {
      hide Overflows, IsTight, ShowsCursor, StrLen;
      cursor := 0;
      if shownStart > 0 {
        shownStart := 0;
        DrawValue(0);
      }
    }

    method MoveToEnd()
      requires Valid()
      modifies this
      ensures Valid() && View() == Edit(old(View()), ToEnd, max)
    {
      hide Overflows, IsTight, ShowsCursor, StrLen;
      cursor := Strlen();
      if shownEnd < cursor {
        DrawValue(0);
      }
    }

    method EraseToEndOfLine()
      requires Valid()
      modifies this, text
      ensures Valid() && View() == Edit(old(View()), EraseToEnd, max)
    {
      ghost var t := text[..];
      forall i | cursor <= i < max {
        text[i] := NUL;
      }
      assert text[..cursor] == t[..cursor];
      StrLenIs(text[..], cursor);
    }

    method EraseLine()
      requires Valid()
      modifies this, text
      ensures Valid() && View() == Edit(old(View()), EraseAll, max)
    {
      MoveToBegining();
      EraseToEndOfLine();
    }

    /** `SetPrompt` puts the cursor back but not the scroll start: sound only if nothing is scrolled. */
    method ResetPromptCursor()
      requires Valid()
      modifies `cursor
      ensures Sound() && View() == Edit(old(View()), ToBeginning, max)
      ensures Valid() <==> shownStart == 0
    {
      cursor := 0;
    }

    /**
     Any run of actions, up to one that would put a NUL into the text: the field stays valid and holds
     what the abstract editor holds.
     */
    method Perform(actions: seq<Action>) returns (done: nat)
      requires Valid()
      modifies this, text
      ensures done <= |actions| && AllTypable(old(View()), actions[..done], max)
      ensures Valid() && View() == EditAll(old(View()), actions[..done], max)
      ensures done < |actions| ==> !Typable(View(), actions[done], max)
    {
      hide Sound, View, Edit, EditAll, AllTypable, Typable, IsText;
      done := 0;
      ghost var start := View();
      NothingDone(actions);
      while done < |actions|
        invariant done <= |actions| && Valid() && IsText(start, max) && AllTypable(start, actions[..done], max)
        invariant View() == EditAll(start, actions[..done], max)
      {
        var typable := IsTypable(actions[done]);
        if !typable {
          return;
        }
        OneMoreAction(start, actions[..done], actions[done], max);
        assert actions[..done + 1] == actions[..done] + [actions[done]];
        Do(actions[done]);
        done := done + 1;
      }
    }

    lemma NothingDone(actions: seq<Action>)
      requires Valid()
      ensures AllTypable(View(), actions[..0], max) && EditAll(View(), actions[..0], max) == View()
    {
    }

    /** No NUL is among the characters typed that still fit. */
    method IsTypable(action: Action) returns (b: bool)
      requires Valid()
      ensures b == Typable(View(), action, max)
    {
      if !action.Insert? {
        return true;
      }
      var _, len := RoomFor(action.typed);
      return NUL !in action.typed[..len];
    }

    method Do(action: Action)
      requires Valid() && Typable(View(), action, max)
      modifies this, text
      ensures Valid() && View() == Edit(old(View()), action, max)
    {
      match action {
        case Insert(typed) => InsertChar(typed);
        case DeleteBackward => DeleteBackwardChar();
        case DeleteForward => DeleteForwardChar();
        case Backward => MoveBackwardChar();
        case Forward => MoveForwardChar();
        case ToBeginning => MoveToBegining();
        case ToEnd => MoveToEnd();
        case EraseToEnd => EraseToEndOfLine();
        case EraseAll => EraseLine();
      }
    }
  }
}
