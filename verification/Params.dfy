/**
 Options on the kernel command line. The code is an automaton over characters; what it
 finds is defined here over the words of the command line.
 */
module Params {

  /* ---- What an option has for a value ---- */

  /** `size` is what the code reports: it counts the terminator if the value is the last word. */
  datatype Answer = Missing | Flag | Value(value: seq<char>, size: nat)

  /** The length of the word the text starts with. */
  function WordLength(t: seq<char>): (n: nat)
    ensures n <= |t| && ' ' !in t[..n] && (n < |t| ==> t[n] == ' ')
  {
    if t == [] || t[0] == ' ' then 0
    else
      assert forall n :: 0 <= n < |t| ==> t[..n + 1] == [t[0]] + t[1..][..n];
      1 + WordLength(t[1..])
  }

  /** What one word says about the option; `known` is what was said before. */
  function Word(w: seq<char>, option: seq<char>, known: Answer, extra: nat): (a: Answer) {
    if option + ['='] <= w then Value(w[|option| + 1..], |w| - |option| - 1 + extra) else known
  }

  /**
   The last word `option=value` counts, unless the bare option is a word. When the command
   line does not end with a terminator, a bare option at its very end is not seen.
   */
  function Find(t: seq<char>, option: seq<char>, ended: bool, known: Answer): (a: Answer)
    decreases |t|
  {
    if t == [] then if ended && option == [] then Flag else known
    else if t[0] == ' ' then Find(t[1..], option, ended, known)
    else
      var n := WordLength(t);
      if n < |t| then
        if t[..n] == option then Flag else Find(t[n + 1..], option, ended, Word(t[..n], option, known, 0))
      else if ended && t == option then Flag
      else Word(t, option, known, if ended then 1 else 0)
  }

  /** Where the command line ends: at a terminator or after `limit` characters. */
  function EndOf(cmdline: seq<char>, limit: nat): (n: nat)
    requires limit <= |cmdline| || '\0' in cmdline
    ensures n <= limit && n <= |cmdline| && '\0' !in cmdline[..n] && (n < limit ==> n < |cmdline| && cmdline[n] == '\0')
  {
    if limit == 0 || cmdline[0] == '\0' then 0
    else
      assert forall n :: 0 <= n < |cmdline| ==> cmdline[..n + 1] == [cmdline[0]] + cmdline[1..][..n];
      1 + EndOf(cmdline[1..], limit - 1)
  }

  /* ---- The words of a command line ---- */

  /** The words of a text, whatever the spacing. */
  function Split(t: seq<char>): (ws: seq<seq<char>>)
    ensures forall i :: 0 <= i < |ws| ==> ws[i] != [] && ' ' !in ws[i]
    ensures EndsInWord(t) ==> ws != []
    decreases |t|
  {
    if t == [] then []
    else if t[0] == ' ' then
      assert EndsInWord(t) ==> EndsInWord(t[1..]);
      Split(t[1..])
    else
      [t[..WordLength(t)]] + Split(t[WordLength(t)..])
  }

  predicate EndsInWord(t: seq<char>) {
    t != [] && t[|t| - 1] != ' '
  }

  /** Words separated by single spaces. */
  function Join(ws: seq<seq<char>>): (t: seq<char>) {
    if ws == [] then [] else if |ws| == 1 then ws[0] else ws[0] + [' '] + Join(ws[1..])
  }

  /** Splitting undoes joining. */
  lemma {:induction false} SplitJoin(ws: seq<seq<char>>)
    requires forall i :: 0 <= i < |ws| ==> ws[i] != [] && ' ' !in ws[i]
    ensures Split(Join(ws)) == ws
  {
    if ws != [] {
      var t, w, n := Join(ws), ws[0], |ws[0]|;
      assert t[0] == w[0] && w[0] in w && t[..n] == w;
      LengthIs(t, n);
      SplitJoin(ws[1..]);
      assert ws == [w] + ws[1..];
      if |ws| > 1 {
        assert t[n..][0] == ' ' && t[n..][1..] == Join(ws[1..]);
      } else {
        assert t[n..] == [];
      }
    }
  }

  lemma LengthIs(u: seq<char>, n: nat)
    requires n <= |u| && ' ' !in u[..n] && (n < |u| ==> u[n] == ' ')
    ensures WordLength(u) == n
  {
    var m := WordLength(u);
    assert forall k :: 0 <= k < n ==> u[k] == u[..n][k];
    assert forall k :: 0 <= k < m ==> u[k] == u[..m][k];
  }

  /** The last word that gives the option a value, -1 if none does. */
  function LastGiven(ws: seq<seq<char>>, option: seq<char>): (k: int)
    ensures -1 <= k < |ws| && (k >= 0 ==> option + ['='] <= ws[k])
    ensures forall j :: k < j < |ws| ==> !(option + ['='] <= ws[j])
  {
    if ws == [] then -1
    else if option + ['='] <= ws[|ws| - 1] then |ws| - 1
    else LastGiven(ws[..|ws| - 1], option)
  }

  /** The bare option is one of the words; at the end of the line only if the line is terminated. */
  predicate Bare(t: seq<char>, option: seq<char>, ended: bool) {
    var ws := Split(t);
    if EndsInWord(t) then option in ws[..|ws| - 1] || (ended && option == ws[|ws| - 1])
    else option in ws || (ended && option == [])
  }

  /** What the words of a line say about an option. */
  function Says(t: seq<char>, option: seq<char>, ended: bool, known: Answer): (a: Answer) {
    var ws := Split(t);
    var k := LastGiven(ws, option);
    if Bare(t, option, ended) then Flag
    else if k < 0 then known
    else Word(ws[k], option, known, if ended && EndsInWord(t) && k == |ws| - 1 then 1 else 0)
  }

  /** The bare option anywhere is a flag; otherwise the last value counts; otherwise nothing new is known. */
  lemma {:induction false} FindWords(t: seq<char>, option: seq<char>, ended: bool, known: Answer)
    ensures Find(t, option, ended, known) == Says(t, option, ended, known)
    decreases |t|
  {
    if t != [] && t[0] == ' ' {
      SpaceFirst(t, option, ended, known);
      FindWords(t[1..], option, ended, known);
    } else if t != [] {
      var n := WordLength(t);
      if n == |t| {
        OneWord(t, option, ended, known);
      } else {
        WordFirst(t, option, ended, known);
        FindWords(t[n + 1..], option, ended, Word(t[..n], option, known, 0));
      }
    }
  }

  lemma SpaceFirst(t: seq<char>, option: seq<char>, ended: bool, known: Answer)
    requires t != [] && t[0] == ' '
    ensures Says(t, option, ended, known) == Says(t[1..], option, ended, known)
  {
    assert EndsInWord(t) <==> EndsInWord(t[1..]);
  }

  lemma OneWord(t: seq<char>, option: seq<char>, ended: bool, known: Answer)
    requires t != [] && WordLength(t) == |t|
    ensures Says(t, option, ended, known)
         == if ended && t == option then Flag else Word(t, option, known, if ended then 1 else 0)
  {
    assert t[..|t|] == t && t[|t|..] == [];
    assert Split(t) == [t];
    assert t[|t| - 1] in t[..|t|];
  }

  /** A first word decides, or leaves it to the text behind the space after it. */
  lemma WordFirst(t: seq<char>, option: seq<char>, ended: bool, known: Answer)
    requires t != [] && t[0] != ' ' && WordLength(t) < |t|
    ensures var w, u := t[..WordLength(t)], t[WordLength(t) + 1..];
            Says(t, option, ended, known)
            == (if w == option then Flag else Says(u, option, ended, Word(w, option, known, 0)))
  {
    var n := WordLength(t);
    var u, w := t[n + 1..], t[..n];
    assert t[n..][1..] == u;
    assert Split(t) == [w] + Split(u);
    assert EndsInWord(t) <==> EndsInWord(u);
    SaysMore(t, u, w, Split(t), Split(u), option, ended, known);
  }

  lemma SaysMore(t: seq<char>, u: seq<char>, w: seq<char>, ws: seq<seq<char>>, vs: seq<seq<char>>, option: seq<char>,
                 ended: bool, known: Answer)
    requires ws == Split(t) == [w] + vs && vs == Split(u) && EndsInWord(t) == EndsInWord(u) && w != []
    ensures Says(t, option, ended, known)
         == if w == option then Flag else Says(u, option, ended, Word(w, option, known, 0))
  {
    hide Split, LastGiven, EndsInWord;
    BareMore(t, u, w, ws, vs, option, ended);
    LastGivenTail(ws, option);
    assert ws[1..] == vs;
  }

  lemma BareMore(t: seq<char>, u: seq<char>, w: seq<char>, ws: seq<seq<char>>, vs: seq<seq<char>>, option: seq<char>,
                 ended: bool)
    requires ws == Split(t) == [w] + vs && vs == Split(u) && EndsInWord(t) == EndsInWord(u)
    ensures Bare(t, option, ended) <==> option == w || Bare(u, option, ended)
  {
    hide Split, EndsInWord;
    if EndsInWord(t) {
      assert ws[..|ws| - 1] == [w] + vs[..|vs| - 1];
      assert ws[|ws| - 1] == vs[|vs| - 1];
    }
  }

  lemma LastGivenTail(ws: seq<seq<char>>, option: seq<char>)
    requires ws != []
    ensures var k := LastGiven(ws[1..], option);
            LastGiven(ws, option) == if k >= 0 then k + 1 else if option + ['='] <= ws[0] then 0 else -1
  {
    var k, m := LastGiven(ws[1..], option), LastGiven(ws, option);
    assert forall j :: 0 < j < |ws| ==> ws[j] == ws[1..][j - 1];
  }

  /* ---- The automaton ---- */

  datatype State = WordStart | WordCmp | WordSkip | BufCopy

  /** What is known of the word read so far, `p`. */
  predicate Reading(state: State, op: nat, p: seq<char>, option: seq<char>) {
    && ' ' !in p
    && match state
       case WordStart => p == []
       case WordCmp => p != [] && p <= option && op == |p|
       case WordSkip => p != [] && !(p <= option) && !(option + ['='] <= p)
       case BufCopy => option + ['='] <= p
  }

  /** The answer so far: the value of the word being copied, or the answer before it. */
  function SoFar(state: State, p: seq<char>, option: seq<char>, known: Answer): (a: Answer) {
    if state == BufCopy then Word(p, option, known, 0) else known
  }

  function Copied(n: nat, bufLen: nat): (k: nat) {
    if n < bufLen then n else if bufLen == 0 then 0 else bufLen - 1
  }

  /** The counter and the buffer hold an answer, truncated to leave room for the terminator. */
  ghost predicate Holding(buf: array<char>, bufLen: nat, n: int, pos: nat, a: Answer)
    reads buf
  {
    && bufLen <= buf.Length
    && match a
       case Missing => n == -1 && pos == 0
       case Flag => false
       case Value(v, size) => n == size && size >= |v| && pos == Copied(size, bufLen) && Copied(|v|, bufLen) <= pos
                              && buf[..Copied(|v|, bufLen)] == v[..Copied(|v|, bufLen)]
  }

  /** A command line, up to its terminator if `ended`, and the option to look up. */
  datatype Line = Line(text: seq<char>, option: seq<char>, ended: bool)

  /** What the line says about its option. */
  function Answered(l: Line): (a: Answer) {
    Find(l.text, l.option, l.ended, Missing)
  }

  /** An option name, as the callers write them. */
  predicate Name(option: seq<char>) {
    ' ' !in option && '\0' !in option
  }

  /** The state and the place in the option. */
  datatype Auto = Auto(state: State, op: nat)

  /** How many characters the value has, and how many of them were copied. */
  datatype Count = Count(n: int, pos: nat)

  /** Before character `i`, in the word that starts at `st`, with what the words before it say. */
  datatype Place = Place(i: nat, st: nat, known: Answer)

  function WordAt(l: Line, s: Place): (w: seq<char>)
    requires s.st <= s.i <= |l.text|
  {
    l.text[s.st..s.i]
  }

  /** The automaton at a place of the line. */
  ghost predicate At(l: Line, a: Auto, s: Place) {
    && s.st <= s.i <= |l.text| && Reading(a.state, a.op, WordAt(l, s), l.option)
    && Answered(l) == Find(l.text[s.st..], l.option, l.ended, s.known)
  }

  /** A word ends at a space. */
  lemma WordEnds(l: Line, s: Place)
    requires s.st < s.i < |l.text| && ' ' !in WordAt(l, s) && l.text[s.i] == ' '
    ensures Find(l.text[s.st..], l.option, l.ended, s.known)
         == if WordAt(l, s) == l.option then Flag
            else Find(l.text[s.i + 1..], l.option, l.ended, Word(WordAt(l, s), l.option, s.known, 0))
  {
    var u, n := l.text[s.st..], s.i - s.st;
    assert u[n] == ' ' && u[..n] == WordAt(l, s) && u[n + 1..] == l.text[s.i + 1..];
    LengthIs(u, n);
    assert u[0] == WordAt(l, s)[0];
  }

  /** The last word ends with the text. */
  lemma LastWord(l: Line, s: Place)
    requires s.st < s.i == |l.text| && ' ' !in WordAt(l, s)
    ensures Find(l.text[s.st..], l.option, l.ended, s.known)
         == if l.ended && WordAt(l, s) == l.option then Flag
            else Word(WordAt(l, s), l.option, s.known, if l.ended then 1 else 0)
  {
    var u := l.text[s.st..];
    assert u == WordAt(l, s) == u[..|u|];
    LengthIs(u, |u|);
    assert u[0] in u;
  }

  /** A word that has left the option behind stays different from it. */
  lemma Differs(p: seq<char>, ch: char, option: seq<char>)
    requires if p <= option then (if p == option then ch != '=' else ch != option[|p|]) else !(option + ['='] <= p)
    ensures !(p + [ch] <= option) && !(option + ['='] <= p + [ch])
  {
    PrefixGrows(p, ch, option);
    PrefixOfGrown(option + ['='], p, ch);
    assert option + ['='] == p + [ch] ==> option == p && ch == '=' by {
      assert (option + ['='])[..|option|] == option && (p + [ch])[..|p|] == p;
    }
  }

  lemma PrefixGrows(p: seq<char>, ch: char, q: seq<char>)
    ensures p + [ch] <= q <==> p <= q && |p| < |q| && q[|p|] == ch
  {
    if p + [ch] <= q {
      assert q[|p|] == (p + [ch])[|p|];
      assert q[..|p|] == (p + [ch])[..|p|];
    }
  }

  lemma PrefixOfGrown(q: seq<char>, p: seq<char>, ch: char)
    ensures q <= p + [ch] <==> q <= p || q == p + [ch]
  {
    assert |q| <= |p| ==> (p + [ch])[..|q|] == p[..|q|];
  }

  /** One character outside a value: skips spaces, compares the word with the option, or skips the word. */
  method Compare(ch: char, option: seq<char>, state: State, op: nat, ghost p: seq<char>)
    returns (flagged: bool, state': State, op': nat)
    requires state != BufCopy && Reading(state, op, p, option) && ' ' !in option && '\0' !in option
    ensures flagged <==> p == option && (ch == '\0' || (ch == ' ' && p != []))
    ensures !flagged && ch == ' ' ==> state' == WordStart
    ensures !flagged && ch != ' ' && ch != '\0' ==> Reading(state', op', p + [ch], option)
    ensures state' == BufCopy ==> ch == '=' && p == option
  {
    flagged, state', op' := false, state, op;
    if state' == WordStart {
      if ch == ' ' {
        return;
      }
      state', op' := WordCmp, 0;
    }
    if state' == WordCmp {
      if op' == |option| {
        if ch == '=' {
          state' := BufCopy;
          return;
        } else if ch == ' ' || ch == '\0' {
          flagged := true;
          return;
        }
      } else if ch == option[op'] {
        op' := op' + 1;
        return;
      }
      state' := WordSkip;
    }
    if ch == ' ' {
      state' := WordStart;
    } else if ch != '\0' {
      Differs(p, ch, option);
    }
  }

  /** One character of a value: counted, and copied while there is room. */
  method Copy(ch: char, buf: array<char>, bufLen: nat, nIn: nat, posIn: nat, ghost v: seq<char>)
    returns (n: nat, pos: nat)
    requires Holding(buf, bufLen, nIn, posIn, Value(v, |v|))
    modifies buf
    ensures Holding(buf, bufLen, n, pos, Value(v + [ch], |v| + 1))
    ensures Holding(buf, bufLen, n, pos, Value(v, |v| + 1))
    ensures |v| + 1 < bufLen ==> buf[|v|] == ch
  {
    n, pos := nIn + 1, posIn;
    if n < bufLen {
      buf[pos] := ch;
      pos := pos + 1;
    }
  }

  /** The next word starts behind the space; the word before it, if any, has been dealt with. */
  function PastSpace(l: Line, a: Auto, s: Place): (s': Place)
    requires s.st <= s.i <= |l.text|
  {
    Place(s.i + 1, s.i + 1, SoFar(a.state, WordAt(l, s), l.option, s.known))
  }

  lemma SpaceSkipped(t: seq<char>, i: nat, option: seq<char>, ended: bool, known: Answer)
    requires i < |t| && t[i] == ' '
    ensures Find(t[i..], option, ended, known) == Find(t[i + 1..], option, ended, known)
  {
    assert t[i..][1..] == t[i + 1..];
  }

  lemma AfterSpace(l: Line, a: Auto, s: Place, a': Auto)
    requires At(l, a, s) && s.i < |l.text| && l.text[s.i] == ' ' && a'.state == WordStart
    ensures a.state != WordStart && WordAt(l, s) == l.option ==> Answered(l) == Flag
    ensures a.state == WordStart || WordAt(l, s) != l.option ==> At(l, a', PastSpace(l, a, s))
  {
    hide Find;
    assert l.text[s.i + 1..s.i + 1] == [];
    if a.state == WordStart {
      SpaceSkipped(l.text, s.i, l.option, l.ended, s.known);
    } else {
      WordEnds(l, s);
    }
  }

  /** Any other character: the word goes on. */
  lemma AfterChar(l: Line, a: Auto, s: Place, a': Auto)
    requires At(l, a, s) && s.i < |l.text| && Reading(a'.state, a'.op, WordAt(l, s) + [l.text[s.i]], l.option)
    ensures At(l, a', s.(i := s.i + 1)) && WordAt(l, s.(i := s.i + 1)) == WordAt(l, s) + [l.text[s.i]]
  {
    assert WordAt(l, s.(i := s.i + 1)) == WordAt(l, s) + [l.text[s.i]];
    hide Find;
  }

  /** The end of the command line. */
  lemma AfterEnd(l: Line, a: Auto, s: Place)
    requires At(l, a, s) && s.i == |l.text|
    ensures l.ended && WordAt(l, s) == l.option ==> Answered(l) == Flag
    ensures !(l.ended && WordAt(l, s) == l.option) ==>
      Answered(l)
      == if a.state == BufCopy then Word(WordAt(l, s), l.option, s.known, if l.ended then 1 else 0) else s.known
  {
    assert l.text[s.st..] == WordAt(l, s);
    if a.state != WordStart {
      hide Find;
      LastWord(l, s);
    }
  }

  /** The automaton and what it has written, at a place of the line. */
  ghost predicate Scanning(l: Line, a: Auto, s: Place, c: Count, buf: array<char>, bufLen: nat)
    requires s.st <= s.i <= |l.text|
    reads buf
  {
    var known := SoFar(a.state, WordAt(l, s), l.option, s.known);
    At(l, a, s) && Held(known, c, buf, bufLen)
  }

  /** A complete answer is held. */
  ghost predicate Held(known: Answer, c: Count, buf: array<char>, bufLen: nat)
    reads buf
  {
    Holding(buf, bufLen, c.n, c.pos, known) && (known.Value? ==> known.size == |known.value|)
  }

  /** The result, before the terminator is written behind it. */
  ghost predicate Result(buf: array<char>, bufLen: nat, n: int, pos: nat, a: Answer)
    reads buf
  {
    && Holding(buf, bufLen, n, pos, a)
    && (a.Value? && Copied(|a.value|, bufLen) < pos ==> buf[Copied(|a.value|, bufLen)] == '\0')
  }

  /** What the next character is: of the text, or the terminator after it. */
  predicate Next(ch: char, l: Line, i: nat) {
    if i < |l.text| then ch == l.text[i] != '\0' else l.ended && ch == '\0'
  }

  /** Outside a value, the answer does not change until a value starts. */
  method StepOutside(ch: char, option: seq<char>, buf: array<char>, bufLen: nat, a: Auto, c: Count,
                     ghost l: Line, ghost s: Place)
    returns (flagged: bool, a': Auto, c': Count, ghost s': Place)
    requires l.option == option && Name(option) && s.st <= s.i <= |l.text|
    requires Scanning(l, a, s, c, buf, bufLen) && Next(ch, l, s.i) && a.state != BufCopy
    ensures flagged ==> Answered(l) == Flag
    ensures !flagged && s.i < |l.text| ==> s'.st <= s'.i == s.i + 1 && Scanning(l, a', s', c', buf, bufLen)
    ensures !flagged && s.i == |l.text| ==> Result(buf, bufLen, c'.n, c'.pos, Answered(l))
  {
    hide Find, Answered, Held, Result, Scanning, WordAt;
    a', c', s' := a, c, s.(i := s.i + 1);
    ghost var p := WordAt(l, s);
    OutsideReady(l, a, s, c, buf, bufLen);
    var state, op;
    flagged, state, op := Compare(ch, option, a.state, a.op, p);
    a' := Auto(state, op);
    if state == BufCopy {
      c' := Count(0, 0);
    }
    if s.i == |l.text| {
      AfterEnd(l, a, s);
      ResultOutside(buf, bufLen, c, s.known);
    } else if ch == ' ' {
      s' := PastSpace(l, a, s);
      if !flagged {
        AfterSpace(l, a, s, a');
        ScanningOn(l, a', s', c', buf, bufLen);
      } else {
        AfterSpace(l, a, s, a.(state := WordStart));
      }
    } else {
      AfterChar(l, a, s, a');
      ScanningOn(l, a', s', c', buf, bufLen);
    }
  }

  /** Outside a value the buffer holds the answer known. */
  lemma OutsideReady(l: Line, a: Auto, s: Place, c: Count, buf: array<char>, bufLen: nat)
    requires s.st <= s.i <= |l.text| && Scanning(l, a, s, c, buf, bufLen) && a.state != BufCopy
    ensures At(l, a, s) && Held(s.known, c, buf, bufLen) && bufLen <= buf.Length
    ensures Reading(a.state, a.op, WordAt(l, s), l.option)
  {
    hide Find;
  }

  lemma ResultOutside(buf: array<char>, bufLen: nat, c: Count, known: Answer)
    requires Held(known, c, buf, bufLen)
    ensures Result(buf, bufLen, c.n, c.pos, known)
  {
  }

  /** A word goes on, or a value starts with nothing in the buffer yet. */
  lemma ScanningOn(l: Line, a: Auto, s: Place, c: Count, buf: array<char>, bufLen: nat)
    requires At(l, a, s) && bufLen <= buf.Length
    requires if a.state == BufCopy then c == Count(0, 0) && WordAt(l, s) == l.option + ['=']
             else Held(s.known, c, buf, bufLen)
    ensures Scanning(l, a, s, c, buf, bufLen)
  {
    hide Find;
  }

  /** Inside a value. */
  method StepCopy(ch: char, buf: array<char>, bufLen: nat, a: Auto, c: Count, ghost l: Line, ghost s: Place)
    returns (a': Auto, c': Count, ghost s': Place)
    requires Name(l.option) && s.st <= s.i <= |l.text|
    requires Scanning(l, a, s, c, buf, bufLen) && Next(ch, l, s.i) && a.state == BufCopy
    modifies buf
    ensures s.i < |l.text| ==> s'.st <= s'.i == s.i + 1 && Scanning(l, a', s', c', buf, bufLen)
    ensures s.i == |l.text| ==> Result(buf, bufLen, c'.n, c'.pos, Answered(l))
  {
    hide Find, Answered, At, Holding, Reading, Result, Scanning, WordAt;
    a', c', s' := a, c, s.(i := s.i + 1);
    ghost var p := WordAt(l, s);
    CopyReady(l, a, s, c, buf, bufLen);
    if ch == ' ' {
      a', s' := a.(state := WordStart), PastSpace(l, a, s);
      ValueEnds(l, a, s, c, buf, bufLen);
    } else {
      var n, pos := Copy(ch, buf, bufLen, c.n, c.pos, p[|l.option| + 1..]);
      c' := Count(n, pos);
      if s.i == |l.text| {
        LineEnds(l, a, s, c', buf, bufLen);
      } else {
        ValueGoesOn(l, a, s, c', buf, bufLen);
      }
    }
  }

  /** Inside a value the buffer holds what was read of it. */
  lemma CopyReady(l: Line, a: Auto, s: Place, c: Count, buf: array<char>, bufLen: nat)
    requires s.st <= s.i <= |l.text| && Scanning(l, a, s, c, buf, bufLen) && a.state == BufCopy
    ensures InValue(l, a, s)
    ensures var v := WordAt(l, s)[|l.option| + 1..]; Holding(buf, bufLen, c.n, c.pos, Value(v, |v|)) && c.n == |v|
  {
    hide Find;
  }

  /** The word at hand has the option's name and the sign behind it. */
  ghost predicate InValue(l: Line, a: Auto, s: Place) {
    At(l, a, s) && a.state == BufCopy && l.option + ['='] <= WordAt(l, s)
  }

  lemma ValueEnds(l: Line, a: Auto, s: Place, c: Count, buf: array<char>, bufLen: nat)
    requires s.st <= s.i < |l.text| && l.text[s.i] == ' ' && Scanning(l, a, s, c, buf, bufLen) && a.state == BufCopy
    ensures Scanning(l, a.(state := WordStart), PastSpace(l, a, s), c, buf, bufLen)
  {
    hide Find, Holding;
    AfterSpace(l, a, s, a.(state := WordStart));
  }

  lemma ValueGoesOn(l: Line, a: Auto, s: Place, c: Count, buf: array<char>, bufLen: nat)
    requires InValue(l, a, s) && s.i < |l.text| && l.text[s.i] != ' '
    requires var v := WordAt(l, s)[|l.option| + 1..];
             Holding(buf, bufLen, c.n, c.pos, Value(v + [l.text[s.i]], |v| + 1))
    ensures Scanning(l, a, s.(i := s.i + 1), c, buf, bufLen)
  {
    hide Find, Holding;
    var p := WordAt(l, s);
    PrefixOfGrown(l.option + ['='], p, l.text[s.i]);
    assert (p + [l.text[s.i]])[|l.option| + 1..] == p[|l.option| + 1..] + [l.text[s.i]];
    AfterChar(l, a, s, a);
  }

  lemma LineEnds(l: Line, a: Auto, s: Place, c: Count, buf: array<char>, bufLen: nat)
    requires InValue(l, a, s) && s.i == |l.text| && l.ended
    requires var v := WordAt(l, s)[|l.option| + 1..];
             Holding(buf, bufLen, c.n, c.pos, Value(v, |v| + 1)) && (|v| + 1 < bufLen ==> buf[|v|] == '\0')
    ensures Result(buf, bufLen, c.n, c.pos, Answered(l))
  {
    hide Find;
    AfterEnd(l, a, s);
  }

  /** The buffer holds the first `k` characters of `v` and a terminator. */
  ghost predicate Terminated(buf: array<char>, v: seq<char>, k: nat)
    reads buf
  {
    k <= |v| && k < buf.Length && buf[..k] == v[..k] && buf[k] == '\0'
  }

  /** Writes the terminator behind what was copied. */
  method Terminate(buf: array<char>, bufLen: nat, n: int, pos: nat, ghost a: Answer)
    requires Result(buf, bufLen, n, pos, a)
    modifies buf
    ensures Returned(buf, bufLen, n, a)
  {
    if bufLen != 0 {
      buf[pos] := '\0';
    }
  }

  /**
   What a caller gets: -2 for a bare option, -1 for a missing one, and else the value, as
   much of it as fits, with a terminator.
   */
  ghost predicate Returned(buf: array<char>, bufLen: nat, n: int, a: Answer)
    reads buf
  {
    && bufLen <= buf.Length
    && match a
       case Flag => n == -2
       case Missing => n == -1 && (bufLen > 0 ==> buf[0] == '\0')
       case Value(v, size) => n == size && (bufLen > 0 ==> Terminated(buf, v, Copied(|v|, bufLen)))
  }

  /** One character. */
  method Step(ch: char, option: seq<char>, buf: array<char>, bufLen: nat, a: Auto, c: Count,
              ghost l: Line, ghost s: Place)
    returns (flagged: bool, a': Auto, c': Count, ghost s': Place)
    requires l.option == option && Name(option) && s.st <= s.i <= |l.text|
    requires Scanning(l, a, s, c, buf, bufLen) && Next(ch, l, s.i)
    modifies buf
    ensures flagged ==> Answered(l) == Flag
    ensures !flagged && s.i < |l.text| ==> s'.st <= s'.i == s.i + 1 && Scanning(l, a', s', c', buf, bufLen)
    ensures !flagged && s.i == |l.text| ==> Result(buf, bufLen, c'.n, c'.pos, Answered(l))
  {
    hide Find, Answered, Scanning, Result, Next;
    flagged := false;
    if a.state == BufCopy {
      a', c', s' := StepCopy(ch, buf, bufLen, a, c, l, s);
    } else {
      flagged, a', c', s' := StepOutside(ch, option, buf, bufLen, a, c, l, s);
    }
  }

  /** The command line that a caller passes, cut at its terminator or its limit. */
  ghost function LineOf(cmdline: seq<char>, limit: nat, option: seq<char>): (l: Line)
    requires limit <= |cmdline| || '\0' in cmdline
    ensures |l.text| <= limit
  {
    var e := EndOf(cmdline, limit);
    Line(cmdline[..e], option, e < limit)
  }

  lemma CharAt(cmdline: seq<char>, limit: nat, option: seq<char>, i: nat)
    requires limit <= |cmdline| || '\0' in cmdline
    requires i < limit && i <= |LineOf(cmdline, limit, option).text|
    ensures var l := LineOf(cmdline, limit, option);
            i < |cmdline| && Next(cmdline[i], l, i) && (cmdline[i] == '\0' <==> i == |l.text|)
  {
    var e := EndOf(cmdline, limit);
    assert i < e ==> cmdline[i] == cmdline[..e][i];
  }

  /** The loop over the command line. */
  method Scan(cmdline: seq<char>, limit: nat, option: seq<char>, buf: array<char>, bufLen: nat)
    returns (flagged: bool, c: Count)
    requires limit > 0 && (limit <= |cmdline| || '\0' in cmdline) && bufLen <= buf.Length && Name(option)
    modifies buf
    ensures var l := LineOf(cmdline, limit, option);
            if flagged then Answered(l) == Flag else Result(buf, bufLen, c.n, c.pos, Answered(l))
  {
    hide Find, Answered, Scanning, Result, Next, EndOf, LineOf;
    ghost var l, s := LineOf(cmdline, limit, option), Place(0, 0, Missing);
    var i: nat := 0;
    var a := Auto(WordStart, 0);
    flagged, c := false, Count(-1, 0);
    OptionOf(cmdline, limit, option);
    Begin(l, buf, bufLen);
    while true
      invariant s.i == i < limit && s.st <= i <= |l.text| && Scanning(l, a, s, c, buf, bufLen)
      decreases |l.text| - i
    {
      CharAt(cmdline, limit, option, i);
      var ch := cmdline[i];
      flagged, a, c, s := Step(ch, option, buf, bufLen, a, c, l, s);
      if flagged || ch == '\0' {
        return;
      }
      i := i + 1;
      if i >= limit {
        CutOff(l, a, s, c, buf, bufLen);
        return;
      }
    }
  }

  lemma OptionOf(cmdline: seq<char>, limit: nat, option: seq<char>)
    requires limit <= |cmdline| || '\0' in cmdline
    ensures var l := LineOf(cmdline, limit, option);
            l.option == option && (|l.text| < limit <==> l.ended) && |l.text| <= limit
  {
  }

  /** Looks an option up on the command line. */
  method GetOption(cmdline: seq<char>, limit: nat, option: seq<char>, buf: array<char>, bufLen: nat) returns (n: int)
    requires limit > 0 && (limit <= |cmdline| || '\0' in cmdline) && bufLen <= buf.Length && Name(option)
    modifies buf
    ensures Returned(buf, bufLen, n, Answered(LineOf(cmdline, limit, option)))
  {
    hide Find, Answered, Result, LineOf;
    var flagged, c := Scan(cmdline, limit, option, buf, bufLen);
    if flagged {
      return -2;
    }
    n := c.n;
    Terminate(buf, bufLen, c.n, c.pos, Answered(LineOf(cmdline, limit, option)));
  }

  lemma Begin(l: Line, buf: array<char>, bufLen: nat)
    requires bufLen <= buf.Length
    ensures Scanning(l, Auto(WordStart, 0), Place(0, 0, Missing), Count(-1, 0), buf, bufLen)
  {
    assert l.text[0..] == l.text && l.text[0..0] == [];
  }

  /** The command line is cut off without a terminator. */
  lemma CutOff(l: Line, a: Auto, s: Place, c: Count, buf: array<char>, bufLen: nat)
    requires s.st <= s.i == |l.text| && !l.ended && Scanning(l, a, s, c, buf, bufLen)
    ensures Result(buf, bufLen, c.n, c.pos, Answered(l))
  {
    AfterEnd(l, a, s);
  }
}
