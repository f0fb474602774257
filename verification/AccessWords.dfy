/**
 The word reader of the Xaccess file (xdm/access.c): quoting, comments, line ends, and the
 one-word lookahead flag `nextIsEOF`, used as `ReadDisplayEntry` uses it - a display word, then
 host words to the end of the line, passing over names that nothing is known about.
 */
module AccessWords {
  import opened Options

  const WORD_LEN: nat := 256

  /** The word read, if any, with the rest of the file and the new `nextIsEOF`. */
  datatype Read = Read(word: Option<string>, rest: string, nextIsEOF: bool)

  function SkipComment(f: string): (r: string)
    ensures |r| <= |f|
    ensures r == "" || r[0] == '\n'
  {
    if f == "" || f[0] == '\n' then f else SkipComment(f[1..])
  }

  /** The scanning loop; `f` is what is left of the file, `w` the word so far. */
  function Word(f: string, w: string, quoted: bool, eofAtEol: bool): Read
    decreases |f|, 1
  {
    if |w| >= WORD_LEN - 2 then Read(None, f, false)
    else if f != "" && f[0] == '#' && !quoted then AtEndOfLine(SkipComment(f[1..]), w, quoted, eofAtEol)
    else if f == "" || f[0] == '\n' then AtEndOfLine(f, w, quoted, eofAtEol)
    else if f[0] == ' ' || f[0] == '\t' then
      if w != "" then Read(Some(w), f, false) else Word(f[1..], w, false, eofAtEol)
    else if f[0] == '\\' && !quoted then Word(f[1..], w, true, eofAtEol)
    else Word(f[1..], w + [f[0]], false, eofAtEol)
  }

  /** A newline or the end of the file has been read; the newline is put back, not consumed. */
  function AtEndOfLine(f: string, w: string, quoted: bool, eofAtEol: bool): Read
    requires f == "" || f[0] == '\n'
    decreases |f|, 0
  {
    if f == "" || (eofAtEol && !quoted) then
      if w == "" then Read(None, f, false) else Read(Some(w), f, true)
    else if w != "" then Read(Some(w), f, false)
    else Word(f[1..], w, false, eofAtEol)
  }

  /** Every character of a word comes out of the file. */
  lemma {:induction false} WordConsumes(f: string, w: string, quoted: bool, eofAtEol: bool)
    ensures var r := Word(f, w, quoted, eofAtEol);
            |r.rest| <= |f| && (r.word.Some? ==> r.word.value != "" && |r.rest| + |r.word.value| <= |f| + |w|)
    decreases |f|, 1
  {
    if |w| < WORD_LEN - 2 && f != "" {
      if f[0] == '\n' {
        EndOfLineConsumes(f, w, quoted, eofAtEol);
      } else if f[0] == '#' && !quoted {
        EndOfLineConsumes(SkipComment(f[1..]), w, quoted, eofAtEol);
      } else if f[0] == ' ' || f[0] == '\t' {
        WordConsumes(f[1..], w, false, eofAtEol);
      } else if f[0] == '\\' && !quoted {
        WordConsumes(f[1..], w, true, eofAtEol);
      } else {
        WordConsumes(f[1..], w + [f[0]], false, eofAtEol);
      }
    }
  }

  lemma {:induction false} EndOfLineConsumes(f: string, w: string, quoted: bool, eofAtEol: bool)
    requires f == "" || f[0] == '\n'
    ensures var r := AtEndOfLine(f, w, quoted, eofAtEol);
            |r.rest| <= |f| && (r.word.Some? ==> r.word.value != "" && |r.rest| + |r.word.value| <= |f| + |w|)
    decreases |f|, 0
  {
    if f != "" {
      WordConsumes(f[1..], w, false, eofAtEol);
    }
  }

  function NextWord(f: string, nextIsEOF: bool, eofAtEol: bool): (r: Read)
    ensures |r.rest| <= |f|
    ensures r.word.Some? ==> r.word.value != "" && |r.rest| < |f|
  {
    WordConsumes(f, "", false, eofAtEol);
    if nextIsEOF then Read(None, f, false) else Word(f, "", false, eofAtEol)
  }

  /** The words that need no lookup, or that the lookup knows, as displays and as hosts. */
  datatype Names = Names(display: string -> bool, host: string -> bool)

  /** Host words up to the first missing word, without those of unknown hosts. */
  function HostWords(f: string, nextIsEOF: bool, names: Names): (r: (seq<string>, string, bool))
    ensures |r.1| <= |f|
    decreases |f|
  {
    var r := NextWord(f, nextIsEOF, true);
    match r.word
    case None => ([], r.rest, r.nextIsEOF)
    case Some(w) =>
      var (more, rest, flag) := HostWords(r.rest, r.nextIsEOF, names);
      ((if names.host(w) then [w] else []) + more, rest, flag)
  }

  /** The entries of a file, each a display word followed by its host words. After an unknown display the next word is one. */
  function Entries(f: string, nextIsEOF: bool, names: Names): seq<seq<string>>
    decreases |f|
  {
    var r := NextWord(f, nextIsEOF, false);
    match r.word
    case None => []
    case Some(w) =>
      if !names.display(w) then Entries(r.rest, r.nextIsEOF, names)
      else
        var (hosts, rest, flag) := HostWords(r.rest, r.nextIsEOF, names);
        [[w] + hosts] + Entries(rest, flag, names)
  }

  class AccessFile {
    var file: string
    var pos: nat
    var nextIsEOF: bool

    ghost predicate Valid()
      reads this
    {
      pos <= |file|
    }

    ghost function Rest(): string
      requires Valid()
      reads this
    {
      file[pos..]
    }

    constructor (contents: string)
      ensures Valid() && Rest() == contents && !nextIsEOF
    {
      file := contents;
      pos := 0;
      nextIsEOF := false;
    }

    /** The comment loop, from the `#` to a newline or the end of the file. */
    method SkipToEndOfLine()
      requires Valid() && pos < |file|
      modifies `pos
      ensures Valid() && pos > old(pos)
      ensures Rest() == SkipComment(old(Rest()[1..]))
    {
      pos := pos + 1;
      assert Rest() == old(Rest()[1..]);
      while pos < |file| && file[pos] != '\n'
        invariant Valid() && pos > old(pos)
        invariant SkipComment(old(Rest()[1..])) == SkipComment(Rest())
      {
        assert Rest()[1..] == file[pos + 1..];
        pos := pos + 1;
      }
    }

    method ReadWord(eofAtEol: bool) returns (word: Option<string>)
      requires Valid()
      modifies this
      ensures Valid() && file == old(file)
      ensures Read(word, Rest(), nextIsEOF) == NextWord(old(Rest()), old(nextIsEOF), eofAtEol)
    {
      hide SkipComment;
      if nextIsEOF {
        nextIsEOF := false;
        return None;
      }
      var w: string := "";
      var quoted := false;
      while |w| < WORD_LEN - 2
        invariant Valid() && file == old(file) && !nextIsEOF
        invariant Word(old(Rest()), "", false, eofAtEol) == Word(Rest(), w, quoted, eofAtEol)
        decreases |file| - pos
      {
        assert pos < |file| ==> Rest()[0] == file[pos] && Rest()[1..] == file[pos + 1..];
        if pos < |file| && file[pos] == '#' && !quoted {
          SkipToEndOfLine();
        }
        if pos == |file| || file[pos] == '\n' {
          if pos == |file| || (eofAtEol && !quoted) {
            if w == "" {
              return None;
            }
            nextIsEOF := true;
            return Some(w);
          }
          if w != "" {
            return Some(w);
          }
        } else if file[pos] == ' ' || file[pos] == '\t' {
          if w != "" {
            return Some(w);
          }
        } else if file[pos] == '\\' && !quoted {
          quoted := true;
          pos := pos + 1;
          continue;
        } else {
          w := w + [file[pos]];
        }
        pos := pos + 1;
        quoted := false;
      }
      return None;
    }

    /** The next host of the line being read; words of unknown hosts are passed over. */
    method ReadHostEntry(names: Names) returns (word: Option<string>)
      requires Valid()
      modifies this
      ensures Valid() && file == old(file) && (word.Some? ==> |Rest()| < old(|Rest()|))
      ensures HostWords(old(Rest()), old(nextIsEOF), names)
           == if word.Some? then
                var (more, rest, flag) := HostWords(Rest(), nextIsEOF, names); ([word.value] + more, rest, flag)
              else ([], Rest(), nextIsEOF)
    {
      word := ReadWord(true);
      while word.Some? && !names.host(word.value)
        invariant Valid() && file == old(file)
        invariant |Rest()| <= old(|Rest()|) && (word.Some? ==> |Rest()| < old(|Rest()|))
        invariant HostWords(old(Rest()), old(nextIsEOF), names)
               == if word.Some? then
                    var (more, rest, flag) := HostWords(Rest(), nextIsEOF, names);
                    ((if names.host(word.value) then [word.value] else []) + more, rest, flag)
                  else ([], Rest(), nextIsEOF)
        decreases |Rest()|, word.Some?
      {
        assert [] + HostWords(Rest(), nextIsEOF, names).0 == HostWords(Rest(), nextIsEOF, names).0;
        word := ReadWord(true);
      }
    }

    /** The host words of the line being read. */
    method ReadHostWords(names: Names) returns (words: seq<string>)
      requires Valid()
      modifies this
      ensures Valid() && file == old(file) && |Rest()| <= old(|Rest()|)
      ensures (words, Rest(), nextIsEOF) == HostWords(old(Rest()), old(nextIsEOF), names)
    {
      words := [];
      assert HostWords(Rest(), nextIsEOF, names).0 == words + HostWords(Rest(), nextIsEOF, names).0;
      while true
        invariant Valid() && file == old(file) && |Rest()| <= old(|Rest()|)
        invariant HostWords(old(Rest()), old(nextIsEOF), names)
               == var (more, rest, flag) := HostWords(Rest(), nextIsEOF, names); (words + more, rest, flag)
        decreases |Rest()|
      {
        var w := ReadHostEntry(names);
        if w == None {
          assert words + [] == words;
          return;
        }
        ghost var more := HostWords(Rest(), nextIsEOF, names).0;
        assert words + ([w.value] + more) == (words + [w.value]) + more;
        words := words + [w.value];
      }
    }

    /** The next entry; after the word of an unknown display the next word, on whatever line, is taken for one. */
    method ReadDisplayEntry(names: Names) returns (entry: Option<seq<string>>)
      requires Valid()
      modifies this
      ensures Valid() && file == old(file) && (entry.Some? ==> |Rest()| < old(|Rest()|))
      ensures Entries(old(Rest()), old(nextIsEOF), names)
           == if entry.Some? then [entry.value] + Entries(Rest(), nextIsEOF, names) else []
    {
      var display := None;
      while true
        invariant Valid() && file == old(file) && |Rest()| <= old(|Rest()|)
        invariant Entries(old(Rest()), old(nextIsEOF), names) == Entries(Rest(), nextIsEOF, names)
        decreases |Rest()|
      {
        display := ReadWord(false);
        if display == None {
          return None;
        }
        if names.display(display.value) {
          break;
        }
      }
      var hosts := ReadHostWords(names);
      return Some([display.value] + hosts);
    }

    method ReadAccessDatabase(names: Names) returns (entries: seq<seq<string>>)
      requires Valid()
      modifies this
      ensures Valid() && entries == Entries(old(Rest()), old(nextIsEOF), names)
    {
      entries := [];
      while true
        invariant Valid() && file == old(file)
        invariant Entries(old(Rest()), old(nextIsEOF), names) == entries + Entries(Rest(), nextIsEOF, names)
        decreases |Rest()|
      {
        var e := ReadDisplayEntry(names);
        if e == None {
          assert entries + [] == entries;
          return;
        }
        assert entries + ([e.value] + Entries(Rest(), nextIsEOF, names)) == (entries + [e.value]) + Entries(Rest(), nextIsEOF, names);
        entries := entries + [e.value];
      }
    }
  }

  // ------------------------------------------------------- what can be written down and read back

  predicate IsBlank(c: char) { c == ' ' || c == '\t' }

  predicate AllBlank(s: string) { forall i :: 0 <= i < |s| ==> IsBlank(s[i]) }

  /** A word the file format can express. */
  predicate Writable(w: string) {
    0 < |w| <= WORD_LEN - 3 && Expressible(w)
  }

  predicate Expressible(w: string) {
    forall i :: 0 <= i < |w| ==> !IsBlank(w[i]) && w[i] != '\n'
  }

  /** `continued`: the word stands on a line of its own, after a backslash-newline. */
  datatype Item = Item(word: string, continued: bool)

  datatype Entry = Entry(display: string, hosts: seq<Item>)

  /** A line: an entry or nothing, and perhaps a comment. */
  datatype Line = Line(indent: string, entry: Option<Entry>, gap: string, comment: Option<string>)

  predicate ValidLine(l: Line) {
    && AllBlank(l.indent) && AllBlank(l.gap)
    && (l.comment.Some? ==> '\n' !in l.comment.value)
    && (l.entry.Some? ==> Writable(l.entry.value.display)
                          && forall i :: 0 <= i < |l.entry.value.hosts| ==> Writable(l.entry.value.hosts[i].word))
  }

  function RenderWord(w: string): string {
    if w == "" then ""
    else (if w[0] == '#' || w[0] == '\\' then ['\\', w[0]] else [w[0]]) + RenderWord(w[1..])
  }

  function RenderHosts(items: seq<Item>): string {
    if items == [] then ""
    else (if items[0].continued then " \\\n" else " ") + (RenderWord(items[0].word) + RenderHosts(items[1..]))
  }

  /** The end of a line, and everything after it. */
  function RenderEnd(gap: string, comment: Option<string>, after: string): (s: string)
    ensures s != ""
  {
    if gap != "" then [gap[0]] + RenderEnd(gap[1..], comment, after)
    else match comment
      case None => ['\n'] + after
      case Some(text) => ['#'] + (text + (['\n'] + after))
  }

  function RenderBody(l: Line, after: string): string {
    match l.entry
    case None => RenderEnd(l.gap, l.comment, after)
    case Some(e) => RenderWord(e.display) + (RenderHosts(e.hosts) + RenderEnd(l.gap, l.comment, after))
  }

  function Render(lines: seq<Line>): string {
    if lines == [] then "" else lines[0].indent + RenderBody(lines[0], Render(lines[1..]))
  }

  function ItemWords(items: seq<Item>): seq<string> {
    if items == [] then [] else [items[0].word] + ItemWords(items[1..])
  }

  function Words(e: Entry): seq<string> {
    [e.display] + ItemWords(e.hosts)
  }

  function KnownHosts(words: seq<string>, names: Names): (r: seq<string>)
    ensures |r| <= |words|
  {
    if words == [] then [] else (if names.host(words[0]) then [words[0]] else []) + KnownHosts(words[1..], names)
  }

  /** The entry made of the words of a line: it starts with the first one that is a known display. */
  function LineEntries(words: seq<string>, names: Names): (r: seq<seq<string>>)
    ensures |r| <= 1
  {
    if words == [] then []
    else if names.display(words[0]) then [[words[0]] + KnownHosts(words[1..], names)]
    else LineEntries(words[1..], names)
  }

  function WrittenEntries(lines: seq<Line>, names: Names): seq<seq<string>> {
    if lines == [] then []
    else (match lines[0].entry
          case None => []
          case Some(e) => LineEntries(Words(e), names)) + WrittenEntries(lines[1..], names)
  }

  /** The lines word for word. */
  function AsWritten(lines: seq<Line>): seq<seq<string>> {
    if lines == [] then []
    else (match lines[0].entry
          case None => []
          case Some(e) => [Words(e)]) + AsWritten(lines[1..])
  }

  /**
   A backslash-newline continues the line exactly when no word is in progress; otherwise the word
   ends there, the line ends with it, and the newline is still to be read.
   */
  lemma ContinuationExactly(w: string, after: string, names: Names)
    requires |w| <= WORD_LEN - 3
    ensures var r := Word(['\\', '\n'] + after, w, false, true);
            if w == "" then r == Word(after, "", false, true)
            else r == Read(Some(w), ['\n'] + after, false) && HostWords(r.rest, r.nextIsEOF, names).0 == []
  {
    var f := ['\\', '\n'] + after;
    assert f[1..] == ['\n'] + after;
    assert f[1..][1..] == after;
    assert Word(f, w, false, true) == Word(f[1..], w, true, true) == AtEndOfLine(f[1..], w, true, true);
    assert Word(f[1..], "", false, true) == Read(None, f[1..], false);
  }

  /** A character of a word is read as it is, or after a backslash. */
  lemma CharIsRead(c: char, rest: string, before: string, e: bool)
    requires !IsBlank(c) && c != '\n' && |before| <= WORD_LEN - 3
    ensures Word((if c == '#' || c == '\\' then ['\\', c] else [c]) + rest, before, false, e)
         == Word(rest, before + [c], false, e)
  {
    if c == '#' || c == '\\' {
      var f := ['\\', c] + rest;
      assert f[1..] == [c] + rest && f[1..][1..] == rest;
      assert Word(f, before, false, e) == Word(f[1..], before, true, e);
    } else {
      assert ([c] + rest)[1..] == rest;
    }
  }

  /** Reading a written word continues the scan with that word in the buffer. */
  lemma {:induction false} WordIsRead(w: string, before: string, tail: string, e: bool)
    requires Expressible(w) && |before| + |w| <= WORD_LEN - 3
    ensures Word(RenderWord(w) + tail, before, false, e) == Word(tail, before + w, false, e)
  {
    hide Word;
    if w == "" {
      assert RenderWord(w) + tail == tail && before + w == before;
    } else {
      var c := if w[0] == '#' || w[0] == '\\' then ['\\', w[0]] else [w[0]];
      CharIsRead(w[0], RenderWord(w[1..]) + tail, before, e);
      assert RenderWord(w) + tail == c + (RenderWord(w[1..]) + tail);
      WordIsRead(w[1..], before + [w[0]], tail, e);
      assert before + [w[0]] + w[1..] == before + w;
    }
  }

  lemma {:induction false} LongWordIsLost(w: string, before: string, tail: string, e: bool)
    requires Expressible(w) && |before| <= WORD_LEN - 2 <= |before| + |w|
    ensures Word(RenderWord(w) + tail, before, false, e).word == None
  {
    var f := RenderWord(w) + tail;
    if |before| < WORD_LEN - 2 {
      LongWordIsLost(w[1..], before + [w[0]], tail, e);
      if w[0] == '#' || w[0] == '\\' {
        assert f[2..] == RenderWord(w[1..]) + tail;
        assert f[1..][1..] == f[2..];
      } else {
        assert f[1..] == RenderWord(w[1..]) + tail;
      }
    }
  }

  /** A word is delivered exactly when it has at most 253 characters. */
  lemma WordLengthLimit(w: string, tail: string, e: bool)
    requires w != "" && Expressible(w)
    ensures Word(RenderWord(w) + ([' '] + tail), "", false, e).word
         == if |w| <= WORD_LEN - 3 then Some(w) else None
  {
    if |w| <= WORD_LEN - 3 {
      WordIsRead(w, "", [' '] + tail, e);
      assert "" + w == w;
    } else {
      LongWordIsLost(w, "", [' '] + tail, e);
    }
  }

  lemma {:induction false} CommentIsSkipped(text: string, after: string)
    requires '\n' !in text
    ensures SkipComment(text + (['\n'] + after)) == ['\n'] + after
  {
    var f := text + (['\n'] + after);
    if text == "" {
      assert f == ['\n'] + after;
    } else {
      CommentIsSkipped(text[1..], after);
      assert f[1..] == text[1..] + (['\n'] + after);
    }
  }

  /** With no word in progress, the end of a line is no word, or runs on into the next line. */
  lemma {:induction false} EndWithoutWord(gap: string, comment: Option<string>, after: string)
    requires AllBlank(gap) && (comment.Some? ==> '\n' !in comment.value)
    ensures Word(RenderEnd(gap, comment, after), "", false, true) == Read(None, ['\n'] + after, false)
    ensures Word(RenderEnd(gap, comment, after), "", false, false) == Word(after, "", false, false)
  {
    var f := RenderEnd(gap, comment, after);
    if gap != "" {
      EndWithoutWord(gap[1..], comment, after);
      assert f[1..] == RenderEnd(gap[1..], comment, after);
    } else {
      assert (['\n'] + after)[1..] == after;
      if comment.Some? {
        CommentIsSkipped(comment.value, after);
        assert f[1..] == comment.value + (['\n'] + after);
      }
    }
  }

  /** After the last word of a line there are no more host words, and the newline is still there. */
  lemma {:induction false} EndAfterWord(w: string, gap: string, comment: Option<string>, after: string, e: bool, names: Names)
    requires 0 < |w| <= WORD_LEN - 3
    requires AllBlank(gap) && (comment.Some? ==> '\n' !in comment.value)
    ensures var r := Word(RenderEnd(gap, comment, after), w, false, e);
            && r.word == Some(w) && HostWords(r.rest, r.nextIsEOF, names) == ([], ['\n'] + after, false)
            && (!e ==> NextWord(r.rest, r.nextIsEOF, false) == NextWord(['\n'] + after, false, false))
  {
    EndWithoutWord("", None, after);
    EndWithoutWord(gap, comment, after);
    var f := RenderEnd(gap, comment, after);
    assert RenderEnd("", None, after) == ['\n'] + after;
    if gap == "" {
      if comment.Some? {
        CommentIsSkipped(comment.value, after);
        assert f[1..] == comment.value + (['\n'] + after);
      }
    }
  }

  /** A blank, and a backslash-newline where there is one, are skipped when no word is in progress. */
  lemma SeparatorIsSkipped(continued: bool, body: string, e: bool)
    ensures Word((if continued then " \\\n" else " ") + body, "", false, e) == Word(body, "", false, e)
  {
    var f := (if continued then " \\\n" else " ") + body;
    if continued {
      var g := ['\\', '\n'] + body;
      assert f[1..] == g && g[1..] == ['\n'] + body && g[1..][1..] == body;
      assert Word(g, "", false, e) == Word(g[1..], "", true, e) == AtEndOfLine(g[1..], "", true, e);
    } else {
      assert f[1..] == body;
    }
  }

  lemma FirstItemAndRest(items: seq<Item>, end: string)
    requires items != []
    ensures RenderHosts(items) + end
         == (if items[0].continued then " \\\n" else " ") + (RenderWord(items[0].word) + (RenderHosts(items[1..]) + end))
  {
    hide RenderWord;
    var sep := if items[0].continued then " \\\n" else " ";
    var word, rest := RenderWord(items[0].word), RenderHosts(items[1..]);
    assert sep + (word + rest) + end == sep + (word + (rest + end));
  }

  /** Between words, what separates them is skipped, and the next word is read; the word before ended there. */
  lemma ItemIsRead(items: seq<Item>, end: string, w: string, e: bool)
    requires items != [] && Writable(items[0].word) && 0 < |w| <= WORD_LEN - 3
    ensures var f := RenderHosts(items) + end;
            && Word(f, "", false, e) == Word(RenderHosts(items[1..]) + end, items[0].word, false, e)
            && (forall first: bool :: Word(f, w, false, first) == Read(Some(w), f, false))
  {
    hide RenderWord, RenderHosts;
    var it, f, tail := items[0], RenderHosts(items) + end, RenderHosts(items[1..]) + end;
    FirstItemAndRest(items, end);
    assert f[0] == ' ' && "" + it.word == it.word;
    SeparatorIsSkipped(it.continued, RenderWord(it.word) + tail, e);
    WordIsRead(it.word, "", tail, e);
  }

  lemma {:induction false} HostsAreRead(items: seq<Item>, gap: string, comment: Option<string>, after: string,
                                        w: string, e: bool, names: Names)
    requires 0 < |w| <= WORD_LEN - 3
    requires AllBlank(gap) && (comment.Some? ==> '\n' !in comment.value)
    requires forall i :: 0 <= i < |items| ==> Writable(items[i].word)
    ensures var r := Word(RenderHosts(items) + RenderEnd(gap, comment, after), w, false, e);
            && r.word == Some(w)
            && HostWords(r.rest, r.nextIsEOF, names) == (KnownHosts(ItemWords(items), names), ['\n'] + after, false)
  {
    var end := RenderEnd(gap, comment, after);
    if items == [] {
      assert RenderHosts(items) + end == end;
      EndAfterWord(w, gap, comment, after, e, names);
    } else {
      ItemIsRead(items, end, w, true);
      HostsAreRead(items[1..], gap, comment, after, items[0].word, true, names);
      assert ItemWords(items)[1..] == ItemWords(items[1..]);
      hide Word, RenderHosts, RenderEnd;
    }
  }

  lemma NewlineIsSkipped(f: string)
    ensures Word(['\n'] + f, "", false, false) == Word(f, "", false, false)
  {
    assert (['\n'] + f)[1..] == f;
  }

  lemma {:induction false} IndentIsSkipped(indent: string, tail: string)
    requires AllBlank(indent)
    ensures Word(indent + tail, "", false, false) == Word(tail, "", false, false)
  {
    if indent == "" {
      assert indent + tail == tail;
    } else {
      IndentIsSkipped(indent[1..], tail);
      assert (indent + tail)[1..] == indent[1..] + tail;
    }
  }

  /** When the display is unknown, the words that follow it are read as displays, to the end of the line. */
  lemma {:induction false} DisplaysAreRead(items: seq<Item>, gap: string, comment: Option<string>, after: string,
                                           w: string, names: Names)
    requires 0 < |w| <= WORD_LEN - 3
    requires AllBlank(gap) && (comment.Some? ==> '\n' !in comment.value)
    requires forall i :: 0 <= i < |items| ==> Writable(items[i].word)
    ensures var r := Word(RenderHosts(items) + RenderEnd(gap, comment, after), w, false, false);
            && r.word == Some(w) && |r.rest| <= |RenderHosts(items) + RenderEnd(gap, comment, after)|
            && Entries(r.rest, r.nextIsEOF, names)
            == LineEntries(ItemWords(items), names) + Entries(['\n'] + after, false, names)
  {
    var end := RenderEnd(gap, comment, after);
    WordConsumes(RenderHosts(items) + end, w, false, false);
    if items == [] {
      assert RenderHosts(items) + end == end;
      EndAfterWord(w, gap, comment, after, false, names);
      hide Word, RenderEnd;
    } else {
      ItemIsRead(items, end, w, false);
      HostsAreRead(items[1..], gap, comment, after, items[0].word, false, names);
      DisplaysAreRead(items[1..], gap, comment, after, items[0].word, names);
      assert ItemWords(items)[1..] == ItemWords(items[1..]);
      hide Word, RenderHosts, RenderEnd;
    }
  }

  /**
   Reading a written file gives its entries, whatever names are known: each line from its first word
   that is a known display on, without the hosts that are unknown. Comments, blank lines, blanks and
   continued lines change nothing.
   */
  lemma {:induction false} WrittenFileIsReadBack(lines: seq<Line>, names: Names)
    requires forall i :: 0 <= i < |lines| ==> ValidLine(lines[i])
    ensures Entries(Render(lines), false, names) == WrittenEntries(lines, names)
    ensures Entries(['\n'] + Render(lines), false, names) == WrittenEntries(lines, names)
  {
    hide Word, RenderEnd, RenderHosts;
    NewlineIsSkipped(Render(lines));
    if lines != [] {
      var l := lines[0];
      var after := Render(lines[1..]);
      WrittenFileIsReadBack(lines[1..], names);
      IndentIsSkipped(l.indent, RenderBody(l, after));
      match l.entry {
        case None =>
          EndWithoutWord(l.gap, l.comment, after);
        case Some(e) =>
          WordIsRead(e.display, "", RenderHosts(e.hosts) + RenderEnd(l.gap, l.comment, after), false);
          assert "" + e.display == e.display;
          assert Words(e)[1..] == ItemWords(e.hosts);
          HostsAreRead(e.hosts, l.gap, l.comment, after, e.display, false, names);
          DisplaysAreRead(e.hosts, l.gap, l.comment, after, e.display, names);
      }
    }
  }

  /** Every name of a line is known. */
  predicate AllKnown(e: Entry, names: Names) {
    names.display(e.display) && forall i :: 0 <= i < |e.hosts| ==> names.host(e.hosts[i].word)
  }

  lemma {:induction false} HostsKnown(items: seq<Item>, names: Names)
    ensures KnownHosts(ItemWords(items), names) == ItemWords(items) <==> forall i :: 0 <= i < |items| ==> names.host(items[i].word)
    ensures |ItemWords(items)| == |items|
  {
    if items != [] {
      HostsKnown(items[1..], names);
      var words := ItemWords(items);
      assert words[1..] == ItemWords(items[1..]);
      assert forall i :: 0 <= i < |items[1..]| ==> items[1..][i] == items[i + 1];
      if names.host(items[0].word) {
        assert KnownHosts(words, names)[1..] == KnownHosts(words[1..], names);
      }
      assert KnownHosts(words, names) == words ==> names.host(items[0].word);
    }
  }

  lemma LineKnown(e: Entry, names: Names)
    ensures LineEntries(Words(e), names) == [Words(e)] <==> AllKnown(e, names)
  {
    var words := Words(e);
    HostsKnown(e.hosts, names);
    assert words[1..] == ItemWords(e.hosts);
    if names.display(e.display) {
      assert ([words[0]] + KnownHosts(words[1..], names))[1..] == KnownHosts(words[1..], names);
    } else {
      Shorter(words[1..], names);
    }
  }

  lemma {:induction false} Shorter(words: seq<string>, names: Names)
    ensures LineEntries(words, names) != [] ==> |LineEntries(words, names)[0]| <= |words|
  {
    if words != [] && !names.display(words[0]) {
      Shorter(words[1..], names);
    }
  }

  lemma {:induction false} NoMoreEntries(lines: seq<Line>, names: Names)
    ensures |WrittenEntries(lines, names)| <= |AsWritten(lines)|
  {
    if lines != [] {
      NoMoreEntries(lines[1..], names);
    }
  }

  /** A written file is read back word for word exactly when every name in it is known. */
  lemma {:induction false} ReadBackExactly(lines: seq<Line>, names: Names)
    requires forall i :: 0 <= i < |lines| ==> ValidLine(lines[i])
    ensures Entries(Render(lines), false, names) == AsWritten(lines) <==>
              forall i :: 0 <= i < |lines| && lines[i].entry.Some? ==> AllKnown(lines[i].entry.value, names)
  {
    WrittenFileIsReadBack(lines, names);
    KnownExactly(lines, names);
  }

  lemma {:induction false} KnownExactly(lines: seq<Line>, names: Names)
    ensures WrittenEntries(lines, names) == AsWritten(lines) <==>
              forall i :: 0 <= i < |lines| && lines[i].entry.Some? ==> AllKnown(lines[i].entry.value, names)
  {
    hide AllKnown, Words, LineEntries;
    if lines != [] {
      var rest, l := lines[1..], lines[0];
      KnownExactly(rest, names);
      NoMoreEntries(rest, names);
      assert forall i :: 0 <= i < |rest| ==> rest[i] == lines[i + 1];
      if l.entry.Some? {
        var e := l.entry.value;
        LineKnown(e, names);
        var head := LineEntries(Words(e), names);
        var all, written := WrittenEntries(lines, names), AsWritten(lines);
        assert all == head + WrittenEntries(rest, names) && written == [Words(e)] + AsWritten(rest);
        if all == written {
          assert |head| == 1;
          assert head == all[..1] == written[..1] && all[1..] == written[1..];
        }
        if forall i :: 0 <= i < |lines| && lines[i].entry.Some? ==> AllKnown(lines[i].entry.value, names) {
          assert AllKnown(lines[0].entry.value, names);
        }
      } else {
        assert WrittenEntries(lines, names) == WrittenEntries(rest, names) && AsWritten(lines) == AsWritten(rest);
      }
    }
  }
}
