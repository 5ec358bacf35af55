/**
 * The kernel shell (kernel/src/sys/shell.c): splitting a command line into
 * words, the argument checks of the commands, and the line editor.
 *
 * A line is the characters of a C string (no NUL).  parse_command works on
 * a copy of the line, `line + [NUL]`, which strtok cuts up in place; the
 * strings it duplicates onto the heap are modelled as values.
 */
module Shell {
  import opened Kernel
  import Strings

  const NUL: u8 := 0
  const SPACE: u8 := 0x20
  const TAB: u8 := 0x09
  const NEWLINE: u8 := 0x0A
  const BACKSPACE: u8 := 0x08
  /** " \t\n": the delimiters of parse_command. */
  const DELIMS: seq<u8> := [SPACE, TAB, NEWLINE]
  const LINE_SIZE: nat := 256

  // ------------------------------------------------------------ words

  /** The first position at or after `i` that is not a delimiter, or |w|. */
  function Skip(w: seq<u8>, i: nat): (j: nat)
    requires i <= |w|
    ensures i <= j <= |w| && (j == |w| || w[j] !in DELIMS)
    ensures forall k :: i <= k < j ==> w[k] in DELIMS
    decreases |w| - i
  {
    if i == |w| || w[i] !in DELIMS then i else Skip(w, i + 1)
  }

  /** The first position at or after `i` that is a delimiter, or |w|. */
  function RunEnd(w: seq<u8>, i: nat): (j: nat)
    requires i <= |w|
    ensures i <= j <= |w| && (j == |w| || w[j] in DELIMS)
    ensures forall k :: i <= k < j ==> w[k] !in DELIMS
    decreases |w| - i
  {
    if i == |w| || w[i] in DELIMS then i else RunEnd(w, i + 1)
  }

  /** The maximal runs of non-delimiters of `w` from position `s` on, in order. */
  function WordsFrom(w: seq<u8>, s: nat): seq<seq<u8>>
    requires s <= |w|
    decreases |w| - s
  {
    if s == |w| then []
    else if w[s] in DELIMS then WordsFrom(w, s + 1)
    else [w[s..RunEnd(w, s)]] + WordsFrom(w, RunEnd(w, s))
  }

  /** Leading delimiters do not change the words. */
  lemma {:induction false} SkipWords(w: seq<u8>, s: nat)
    requires s <= |w|
    ensures WordsFrom(w, s) == WordsFrom(w, Skip(w, s))
    decreases |w| - s
  {
    if s < |w| && w[s] in DELIMS {
      SkipWords(w, s + 1);
    }
  }

  /** The words of a line. */
  function Words(w: seq<u8>): seq<seq<u8>> {
    WordsFrom(w, 0)
  }

  /** The characters of `w` from position `s` on that are not delimiters. */
  function KeptFrom(w: seq<u8>, s: nat): seq<u8>
    requires s <= |w|
    decreases |w| - s
  {
    if s == |w| then [] else (if w[s] in DELIMS then [] else [w[s]]) + KeptFrom(w, s + 1)
  }

  /** The characters of `w` that are not delimiters. */
  function Kept(w: seq<u8>): seq<u8> {
    KeptFrom(w, 0)
  }

  function Flatten(ws: seq<seq<u8>>): seq<u8> {
    if |ws| == 0 then [] else ws[0] + Flatten(ws[1..])
  }

  predicate NoDelims(w: seq<u8>) {
    forall k :: 0 <= k < |w| ==> w[k] !in DELIMS
  }

  /** A run of delimiters keeps nothing. */
  lemma {:induction false} KeptDelims(w: seq<u8>, s: nat, i: nat)
    requires s <= i <= |w| && forall k :: s <= k < i ==> w[k] in DELIMS
    ensures KeptFrom(w, s) == KeptFrom(w, i)
    decreases i - s
  {
    if s < i {
      KeptDelims(w, s + 1, i);
    }
  }

  /** A run without delimiters is kept whole. */
  lemma {:induction false} KeptRun(w: seq<u8>, i: nat, j: nat)
    requires i <= j <= |w| && forall k :: i <= k < j ==> w[k] !in DELIMS
    ensures KeptFrom(w, i) == w[i..j] + KeptFrom(w, j)
    decreases j - i
  {
    if i < j {
      KeptRun(w, i + 1, j);
      var rest := KeptFrom(w, j);
      assert KeptFrom(w, i) == [w[i]] + KeptFrom(w, i + 1);
      assert w[i..j] == [w[i]] + w[i + 1..j];
      assert [w[i]] + (w[i + 1..j] + rest) == ([w[i]] + w[i + 1..j]) + rest;
    }
  }

  /** The word at `i` is a non-empty run without delimiters. */
  lemma WordRun(w: seq<u8>, i: nat)
    requires i < |w| && w[i] !in DELIMS
    ensures RunEnd(w, i) > i && NoDelims(w[i..RunEnd(w, i)])
  {
    var j := RunEnd(w, i);
    assert j != i;
    assert forall k :: 0 <= k < j - i ==> w[i..j][k] == w[i + k];
  }

  /** A word: non-empty and without delimiters. */
  predicate IsWord(x: seq<u8>) {
    |x| > 0 && NoDelims(x)
  }

  /** Each word is non-empty and contains no delimiter. */
  lemma {:induction false} WordsShape(w: seq<u8>, s: nat, k: nat)
    requires s <= |w| && k < |WordsFrom(w, s)|
    ensures IsWord(WordsFrom(w, s)[k])
    decreases |w| - s
  {
    if k == 0 {
      FirstWord(w, s);
    } else {
      var next := LaterWord(w, s, k);
      WordsShape(w, next, k - 1);
    }
  }

  /** The first word is non-empty and contains no delimiter. */
  lemma FirstWord(w: seq<u8>, s: nat)
    requires s <= |w| && WordsFrom(w, s) != []
    ensures IsWord(WordsFrom(w, s)[0])
  {
    SkipWords(w, s);
    var i := Skip(w, s);
    WordRun(w, i);
    var rest := WordsAt(w, s, i, RunEnd(w, i));
  }

  /** Word k > 0 from `s` is word k - 1 after the first word. */
  lemma LaterWord(w: seq<u8>, s: nat, k: nat) returns (next: nat)
    requires s <= |w| && 0 < k < |WordsFrom(w, s)|
    ensures s < next <= |w| && k - 1 < |WordsFrom(w, next)| && WordsFrom(w, s)[k] == WordsFrom(w, next)[k - 1]
  {
    SkipWords(w, s);
    next := RunEnd(w, Skip(w, s));
  }

  /** Together the words hold exactly the other characters, in order. */
  lemma {:induction false} WordsKept(w: seq<u8>, s: nat)
    requires s <= |w|
    ensures Flatten(WordsFrom(w, s)) == KeptFrom(w, s)
    decreases |w| - s
  {
    SkipWords(w, s);
    var i := Skip(w, s);
    KeptDelims(w, s, i);
    if i < |w| {
      var j := RunEnd(w, i);
      KeptRun(w, i, j);
      var word := w[i..j];
      var rest := WordsAt(w, s, i, j);
      if j == |w| {
        assert KeptFrom(w, j) == [];
        assert word + [] == word;
        assert Flatten([word]) == word + Flatten([]);
      } else {
        WordsKept(w, j + 1);
        assert KeptFrom(w, j) == [] + KeptFrom(w, j + 1);
        assert [] + KeptFrom(w, j + 1) == KeptFrom(w, j + 1);
        assert ([word] + rest)[1..] == rest;
        assert Flatten([word] + rest) == word + Flatten(rest);
      }
    }
  }

  /**
   * The words of a line are non-empty, contain no delimiter, and together
   * hold exactly its other characters, in order.
   */
  lemma WordsSpec(w: seq<u8>)
    ensures forall k :: 0 <= k < |Words(w)| ==> |Words(w)[k]| > 0 && NoDelims(Words(w)[k])
    ensures Flatten(Words(w)) == Kept(w)
  {
    forall k | 0 <= k < |Words(w)|
      ensures IsWord(Words(w)[k])
    {
      WordsShape(w, 0, k);
    }
    WordsKept(w, 0);
  }

  // ------------------------------------------------------------ strtok and words

  /**
   * parse_command's copy of line `w` while strtok cuts it up: the NUL after
   * the line, and from position `s` on the line's own characters.
   */
  predicate Tail(m: seq<u8>, w: seq<u8>, s: nat) {
    |m| == |w| + 1 && m[|w|] == NUL && s <= |w| && NUL !in w
    && forall k :: s <= k < |w| ==> m[k] == w[k]
  }

  /** Skip is the only position that ends a run of delimiters. */
  lemma {:induction false} SkipUnique(w: seq<u8>, i: nat, j: nat)
    requires i <= j <= |w| && (forall k :: i <= k < j ==> w[k] in DELIMS) && (j == |w| || w[j] !in DELIMS)
    ensures Skip(w, i) == j
    decreases j - i
  {
    if i < j {
      SkipUnique(w, i + 1, j);
    }
  }

  /** RunEnd is the only position that ends a run of non-delimiters. */
  lemma {:induction false} RunEndUnique(w: seq<u8>, i: nat, j: nat)
    requires i <= j <= |w| && (forall k :: i <= k < j ==> w[k] !in DELIMS) && (j == |w| || w[j] in DELIMS)
    ensures RunEnd(w, i) == j
    decreases j - i
  {
    if i < j {
      RunEndUnique(w, i + 1, j);
    }
  }

  /** The string at `s` is the rest of the line. */
  lemma TailString(m: seq<u8>, w: seq<u8>, s: nat)
    requires Tail(m, w, s)
    ensures Strings.Terminated(m, s) && Strings.NulFrom(m, s) == |w|
  {
    assert forall k :: s <= k < |w| ==> m[k] != NUL by {
      forall k | s <= k < |w|
        ensures m[k] != NUL
      {
        assert m[k] == w[k];
      }
    }
    Strings.CStrOf(m, s, |w|);
  }

  /**
   * Where one strtok call from position `s` stops: the token starts at `i`,
   * after the delimiters, and ends at `j`, the next delimiter or the end.
   */
  lemma StrtokPositions(m: seq<u8>, w: seq<u8>, s: nat) returns (i: nat, j: nat)
    requires Tail(m, w, s)
    ensures Strings.Terminated(m, s)
    ensures s <= i <= j <= |w| && (forall k :: s <= k < i ==> w[k] in DELIMS) && (i == |w| || w[i] !in DELIMS)
    ensures forall k :: i <= k < j ==> w[k] !in DELIMS
    ensures j == |w| || w[j] in DELIMS
    ensures var r := Strings.StrtokSpec(m, s, DELIMS);
            (r.token.None? <==> i == |w|)
            && (r.token.Some? ==>
                  r.token.value == i
                  && (j == |w| ==> r.mem == m && r.olds == j)
                  && (j < |w| ==> r.mem == m[j := NUL] && r.olds == j + 1))
  {
    TailString(m, w, s);
    i := Strings.SpanEnd(m, s, DELIMS);
    forall k | s <= k < i
      ensures w[k] in DELIMS
    {
      assert m[k] == w[k];
    }
    if m[i] == NUL {
      j := i;
    } else {
      Strings.NulFromInside(m, s, i);
      j := Strings.BreakEnd(m, i, DELIMS);
      forall k | i <= k < j
        ensures w[k] !in DELIMS
      {
        assert m[k] == w[k];
      }
    }
  }

  /**
   * One strtok call with " \t\n" from position `s` yields the first word
   * of the rest of the line, as a C string, or no token when there are no
   * words; the next call starts at `next`, with the remaining words.
   */
  lemma StrtokWords(m: seq<u8>, w: seq<u8>, s: nat) returns (r: Strings.TokenStep, next: nat)
    requires Tail(m, w, s)
    ensures Strings.Terminated(m, s) && r == Strings.StrtokSpec(m, s, DELIMS)
    ensures r.token.None? <==> WordsFrom(w, s) == []
    ensures r.token.Some? ==>
              Strings.Terminated(r.mem, r.token.value)
              && Strings.CStr(r.mem, r.token.value) == WordsFrom(w, s)[0]
    ensures r.token.Some? ==> r.olds == next && Tail(r.mem, w, next) && WordsFrom(w, next) == WordsFrom(w, s)[1..]
  {
    var i, j := StrtokPositions(m, w, s);
    SkipUnique(w, s, i);
    next := s;
    r := Strings.StrtokSpec(m, s, DELIMS);
    if i == |w| {
      SkipWords(w, s);
      assert r.token.None?;
    } else {
      RunEndUnique(w, i, j);
      next := WordFound(m, w, s, i, j, r.mem, r.olds);
    }
  }

  /**
   * The word strtok finds at `i`, ending at `j`: the first word from `s`
   * on, as a C string once the delimiter at `j`, if any, is overwritten.
   */
  lemma WordFound(m: seq<u8>, w: seq<u8>, s: nat, i: nat, j: nat, mem: seq<u8>, olds: nat) returns (next: nat)
    requires Tail(m, w, s) && s <= i < |w| && i <= j <= |w| && Skip(w, s) == i && RunEnd(w, i) == j
    requires j == |w| ==> mem == m && olds == j
    requires j < |w| ==> mem == m[j := NUL] && olds == j + 1
    ensures WordsFrom(w, s) != [] && Strings.Terminated(mem, i) && Strings.CStr(mem, i) == WordsFrom(w, s)[0]
    ensures olds == next && Tail(mem, w, next) && WordsFrom(w, next) == WordsFrom(w, s)[1..]
  {
    WordString(m, w, s, i, j, mem);
    var rest := WordsAt(w, s, i, j);
    assert WordsFrom(w, s)[1..] == rest;
    if j == |w| {
      next := j;
      TailAfterWrite(m, w, s, j, false);
    } else {
      next := j + 1;
      TailAfterWrite(m, w, s, j, true);
    }
  }

  /** The characters from `i` to `j` are a C string once the delimiter at `j`, if any, is overwritten. */
  lemma WordString(m: seq<u8>, w: seq<u8>, s: nat, i: nat, j: nat, mem: seq<u8>)
    requires Tail(m, w, s) && s <= i <= j <= |w|
    requires j == |w| ==> mem == m
    requires j < |w| ==> mem == m[j := NUL]
    ensures Strings.Terminated(mem, i) && Strings.CStr(mem, i) == w[i..j]
  {
    assert forall k :: i <= k < j ==> mem[k] == w[k] != NUL;
    Strings.CStrOf(mem, i, j);
    assert mem[i..j] == w[i..j];
  }

  /** The words from `s` when the first one runs from `i` to `j`. */
  lemma WordsAt(w: seq<u8>, s: nat, i: nat, j: nat) returns (rest: seq<seq<u8>>)
    requires s <= i < |w| && i <= j <= |w| && Skip(w, s) == i && RunEnd(w, i) == j
    ensures rest == WordsFrom(w, if j == |w| then j else j + 1)
    ensures WordsFrom(w, s) == [w[i..j]] + rest
  {
    SkipWords(w, s);
    rest := WordsFrom(w, if j == |w| then j else j + 1);
    assert WordsFrom(w, i) == [w[i..j]] + WordsFrom(w, j);
  }

  /** Writing a NUL over a delimiter at `j` leaves the line from `j + 1` on untouched. */
  lemma TailAfterWrite(m: seq<u8>, w: seq<u8>, s: nat, j: nat, write: bool)
    requires Tail(m, w, s) && s <= j <= |w| && (write ==> j < |w|)
    ensures write ==> Tail(m[j := NUL], w, j + 1)
    ensures !write ==> Tail(m, w, j)
  {
    if write {
      var m' := m[j := NUL];
      forall k | j + 1 <= k < |w|
        ensures m'[k] == w[k]
      {
        assert m'[k] == m[k];
      }
    }
  }

  /** strcspn of the line: the command word ends where the first run of non-delimiters does. */
  lemma BreakIsRunEnd(m: seq<u8>, w: seq<u8>)
    requires Tail(m, w, 0)
    ensures Strings.Terminated(m, 0) && Strings.BreakEnd(m, 0, DELIMS) == RunEnd(w, 0)
  {
    TailString(m, w, 0);
    var e := Strings.BreakEnd(m, 0, DELIMS);
    forall k | 0 <= k < e
      ensures w[k] !in DELIMS
    {
      assert m[k] == w[k];
    }
    RunEndUnique(w, 0, e);
  }

  // ------------------------------------------------------------ parse_command

  /** struct command_info; `capacity` is the number of slots allocated for `arguments`. */
  datatype CommandInfo = CommandInfo(command: Option<seq<u8>>, arguments: Option<seq<seq<u8>>>,
                                     capacity: nat, numArguments: nat)

  /**
   * The number of arguments stored: none for a blank line, otherwise the
   * words up to `len / 2`, but at least one, because the bound is checked
   * only after a word has been stored.
   */
  function NumArguments(words: nat, maxArguments: nat): nat {
    if words == 0 then 0
    else if maxArguments == 0 then 1
    else if words < maxArguments then words
    else maxArguments
  }

  /** The result of parse_command on a non-empty line. */
  function Parsed(w: seq<u8>, len: u32): CommandInfo {
    var ws := Words(w);
    var n := NumArguments(|ws|, len as nat / 2);
    CommandInfo(Some(w[..RunEnd(w, 0)]), Some(ws[..n]), len as nat / 2, n)
  }

  /**
   * parse_command: a zero length or NULL line gives {NULL, NULL, 0};
   * otherwise the command is the line up to the first delimiter and the
   * arguments are its words, the command word first.  Tokenising reads to
   * the line's NUL whatever `len` says.
   */
  method ParseCommand(line: Option<seq<u8>>, len: u32) returns (info: CommandInfo)
    requires line.Some? ==> NUL !in line.value
    ensures len == 0 || line.None? ==> info == CommandInfo(None, None, 0, 0)
    ensures len != 0 && line.Some? ==> info == Parsed(line.value, len)
  {
    if len == 0 || line.None? {
      return CommandInfo(None, None, 0, 0);
    }
    var w := line.value;
    var m := w + [NUL];
    assert Tail(m, w, 0);
    BreakIsRunEnd(m, w);
    var commandEnd := Strings.BreakEnd(m, 0, DELIMS);
    var command := m[..commandEnd];
    assert command == w[..RunEnd(w, 0)];
    var maxArguments := len as nat / 2;
    var arguments, numArguments := Tokenize(m, w, maxArguments);
    return CommandInfo(Some(command), Some(arguments), maxArguments, numArguments);
  }

  /**
   * parse_command's strtok loop over the copy `m` of line `w`: each token
   * is duplicated into the next slot until there are no more tokens or
   * `maxArguments` slots have been filled.
   */
  method Tokenize(m0: seq<u8>, w: seq<u8>, maxArguments: nat) returns (arguments: seq<seq<u8>>, argIndex: nat)
    requires Tail(m0, w, 0)
    ensures argIndex == NumArguments(|Words(w)|, maxArguments) && arguments == Words(w)[..argIndex]
  {
    var m := m0;
    ghost var ws := Words(w);
    TokenAdvance(m, w, 0, ws, 0);
    var step := Strings.StrtokSpec(m, 0, DELIMS);
    var token := step.token;
    m := step.mem;
    var pos := step.olds;
    arguments := [];
    argIndex := 0;
    while token.Some?
      invariant argIndex <= |ws| && arguments == ws[..argIndex]
      invariant argIndex == 0 || argIndex < maxArguments
      invariant token.None? ==> argIndex == |ws|
      invariant token.Some? ==>
                  argIndex < |ws| && Strings.Terminated(m, token.value) && Strings.CStr(m, token.value) == ws[argIndex]
                  && Tail(m, w, pos) && WordsFrom(w, pos) == ws[argIndex + 1..]
      decreases |ws| - argIndex
    {
      PrefixStep(ws, argIndex);
      arguments := arguments + [Strings.CStr(m, token.value)];
      argIndex := argIndex + 1;
      if argIndex >= maxArguments {
        break;
      }
      TokenAdvance(m, w, pos, ws, argIndex);
      step := Strings.StrtokSpec(m, pos, DELIMS);
      token := step.token;
      m := step.mem;
      pos := step.olds;
    }
  }

  /**
   * One strtok call in parse_command's loop, with argument `a` next: it
   * finds no token once every word is stored, and otherwise ws[a] as a C
   * string, the line after it untouched.
   */
  lemma TokenAdvance(m: seq<u8>, w: seq<u8>, pos: nat, ws: seq<seq<u8>>, a: nat)
    requires ws == Words(w) && a <= |ws| && Tail(m, w, pos) && WordsFrom(w, pos) == ws[a..]
    ensures Strings.Terminated(m, pos)
    ensures var step := Strings.StrtokSpec(m, pos, DELIMS);
            (step.token.None? ==> a == |ws|)
            && (step.token.Some? ==>
                  a < |ws| && Strings.Terminated(step.mem, step.token.value)
                  && Strings.CStr(step.mem, step.token.value) == ws[a]
                  && Tail(step.mem, w, step.olds) && WordsFrom(w, step.olds) == ws[a + 1..])
  {
    var st, next := StrtokWords(m, w, pos);
    SuffixStep(ws, a, WordsFrom(w, pos));
  }

  /** Extending a prefix of `ws` by the next element. */
  lemma PrefixStep(ws: seq<seq<u8>>, a: nat)
    requires a < |ws|
    ensures ws[..a] + [ws[a]] == ws[..a + 1]
  { }

  /** A suffix of `ws` is empty exactly at the end, and otherwise starts with ws[a]. */
  lemma SuffixStep(ws: seq<seq<u8>>, a: nat, rest: seq<seq<u8>>)
    requires a <= |ws| && rest == ws[a..]
    ensures rest == [] <==> a == |ws|
    ensures rest != [] ==> rest[0] == ws[a] && rest[1..] == ws[a + 1..]
  { }

  /**
   * The arguments are the first words of the line, the first of them the
   * command word when the line does not start with a delimiter; at most
   * max(1, len / 2) are stored, so with len < 2 one word is stored in an
   * array of no slots.
   */
  lemma ParsedArguments(w: seq<u8>, len: u32)
    ensures var info := Parsed(w, len);
            info.arguments.Some? && |info.arguments.value| == info.numArguments
            && info.arguments.value <= Words(w)
            && info.numArguments <= (if len as int / 2 == 0 then 1 else len as int / 2)
            && (Words(w) != [] ==> info.numArguments >= 1)
            && (len as int / 2 == 0 && Words(w) != [] ==> info.numArguments > info.capacity)
            && (|w| > 0 && w[0] !in DELIMS ==> info.arguments.value[0] == info.command.value)
  {
    var ws := Words(w);
    if |w| > 0 && w[0] !in DELIMS {
      assert Skip(w, 0) == 0;
      WordRun(w, 0);
      assert ws[0] == w[..RunEnd(w, 0)];
    }
  }

  /** free_command_info releases the command, then each argument in order, then the array. */
  datatype Release = ReleaseCommand | ReleaseArgument(index: nat) | ReleaseArguments

  function FreeCommandInfo(info: CommandInfo): (r: seq<Release>)
    ensures |r| == info.numArguments + 2
    ensures r[0] == ReleaseCommand && r[|r| - 1] == ReleaseArguments
    ensures forall i :: 0 <= i < info.numArguments ==> r[i + 1] == ReleaseArgument(i)
  {
    [ReleaseCommand] + seq(info.numArguments, (i: nat) => ReleaseArgument(i)) + [ReleaseArguments]
  }

  /**
   * The heap blocks a parse_command result holds: the command's copy, the
   * argument array and one copy per stored argument.  The line's copy is
   * freed before parse_command returns.
   */
  function Owned(info: CommandInfo): set<Release> {
    (if info.command.Some? then {ReleaseCommand} else {})
    + (if info.arguments.Some? then {ReleaseArguments} else {})
    + set i: nat | i < info.numArguments :: ReleaseArgument(i)
  }

  /** The argument releases of free_command_info's loop name each of the first `n` arguments once. */
  lemma {:induction false} ArgumentReleasesOnce(n: nat)
    ensures forall b :: multiset(seq(n, (i: nat) => ReleaseArgument(i)))[b] ==
                          if b.ReleaseArgument? && b.index < n then 1 else 0
  {
    if n > 0 {
      ArgumentReleasesOnce(n - 1);
      assert seq(n, (i: nat) => ReleaseArgument(i)) == seq(n - 1, (i: nat) => ReleaseArgument(i)) + [ReleaseArgument(n - 1)];
    }
  }

  /**
   * free_command_info on what parse_command returns for a non-empty line
   * releases every block that result holds exactly once, and nothing else.
   */
  lemma FreeReleasesOwnedOnce(w: seq<u8>, len: u32)
    ensures var info := Parsed(w, len);
            forall b :: multiset(FreeCommandInfo(info))[b] == if b in Owned(info) then 1 else 0
  {
    var info := Parsed(w, len);
    var args := seq(info.numArguments, (i: nat) => ReleaseArgument(i));
    ArgumentReleasesOnce(info.numArguments);
    assert FreeCommandInfo(info) == [ReleaseCommand] + args + [ReleaseArguments];
    forall b ensures multiset(FreeCommandInfo(info))[b] == if b in Owned(info) then 1 else 0 {
      if b.ReleaseArgument? && b.index < info.numArguments {
        assert b == ReleaseArgument(b.index);
      }
    }
  }

  // ------------------------------------------------------------ process_command

  /** What process_command does, its output and file-system calls left out. */
  datatype Action =
    | Nothing
    | Help
    | Sysinfo
    | NoDirectory          // "ls" without a path: an error, nothing opened
    | ListDirectory(path: seq<u8>)
    | NoFile               // "print" without a path: an error, nothing opened
    | PrintFile(path: seq<u8>)
    | Page
    | DumpDisks
    | Echo(words: seq<seq<u8>>)
    | Unknown(line: seq<u8>)

  function Ascii(s: string): seq<u8>
    requires forall i :: 0 <= i < |s| ==> s[i] as int < 0x80
  {
    seq(|s|, i requires 0 <= i < |s| => s[i] as int as u8)
  }

  /**
   * process_command's dispatch on a parsed line.  A zero length does
   * nothing; "ls" and "print" need a second argument.
   */
  function CommandAction(line: seq<u8>, len: u32, info: CommandInfo): (a: Action)
    requires info.command.Some? && info.arguments.Some? && info.numArguments <= |info.arguments.value|
    ensures len == 0 <==> a == Nothing
    ensures len != 0 && info.command.value == Ascii("ls") ==>
              (info.numArguments < 2 <==> a == NoDirectory)
              && (info.numArguments >= 2 ==> a == ListDirectory(info.arguments.value[1]))
    ensures len != 0 && info.command.value == Ascii("print") ==>
              (info.numArguments < 2 <==> a == NoFile)
              && (info.numArguments >= 2 ==> a == PrintFile(info.arguments.value[1]))
  {
    var c := info.command.value;
    var args := info.arguments.value;
    if len == 0 then Nothing
    else if c == Ascii("help") then Help
    else if c == Ascii("sysinfo") then Sysinfo
    else if c == Ascii("ls") then (if info.numArguments < 2 then NoDirectory else ListDirectory(args[1]))
    else if c == Ascii("print") then (if info.numArguments < 2 then NoFile else PrintFile(args[1]))
    else if c == Ascii("page") then Page
    else if c == Ascii("dumpdisks") then DumpDisks
    else if c == Ascii("echo") then Echo(if info.numArguments < 1 then [] else args[1..info.numArguments])
    else Unknown(line)
  }

  // ------------------------------------------------------------ line editor

  /** What a key does to the line editor. */
  datatype KeyResult = Ignored | Submitted(line: seq<u8>, len: nat) | Erased | Stored

  /**
   * The line editor of run_kernel_shell: a 256-byte line buffer and its
   * length.  Past the length the buffer holds NULs, except that a
   * backspace leaves the erased character in place.
   */
  class LineEditor {
    const line: array<u8>
    var lineLen: nat

    /** The buffer is 256 bytes; every byte after the length's successor is NUL. */
    ghost predicate Valid()
      reads this, line
    {
      line.Length == LINE_SIZE && lineLen <= LINE_SIZE
      && (forall j :: 0 <= j < lineLen ==> line[j] != NUL)
      && (forall j :: lineLen < j < LINE_SIZE ==> line[j] == NUL)
      && (lineLen < LINE_SIZE ==> line[LINE_SIZE - 1] == NUL)
    }

    /** kmalloc(256) and memset to zero. */
    constructor ()
      ensures Valid() && lineLen == 0 && fresh(line)
      ensures forall j :: 0 <= j < LINE_SIZE ==> line[j] == NUL
    {
      line := new u8[LINE_SIZE](_ => NUL);
      lineLen := 0;
    }

    /**
     * One key from key_code_to_ascii.  NUL, or any key while the buffer is
     * full, is ignored: once 256 characters are in, not even Enter or
     * backspace is accepted.  Enter submits the line (the buffer as a C
     * string and the length) and clears it; backspace writes NUL at the
     * length and decrements it; any other key is stored.
     */
    method Key(asciiKey: u8) returns (r: KeyResult)
      requires Valid()
      modifies this, line
      ensures Valid()
      ensures asciiKey == NUL || old(lineLen) >= LINE_SIZE ==>
                r == Ignored && lineLen == old(lineLen) && line[..] == old(line[..])
      ensures asciiKey != NUL && old(lineLen) < LINE_SIZE && asciiKey == NEWLINE ==>
                Strings.Terminated(old(line[..]), 0)
                && r == Submitted(Strings.CStr(old(line[..]), 0), old(lineLen))
                && old(line[..lineLen]) <= r.line && |r.line| <= old(lineLen) + 1
                && lineLen == 0 && line[..] == seq(LINE_SIZE, j => NUL)
      ensures asciiKey != NUL && old(lineLen) < LINE_SIZE && asciiKey == BACKSPACE ==>
                if old(lineLen) == 0 then r == Ignored && lineLen == 0 && line[..] == old(line[..])
                else r == Erased && lineLen == old(lineLen) - 1 && line[..] == old(line[..])[old(lineLen) := NUL]
      ensures asciiKey != NUL && old(lineLen) < LINE_SIZE && asciiKey != NEWLINE && asciiKey != BACKSPACE ==>
                r == Stored && lineLen == old(lineLen) + 1 && line[..] == old(line[..])[old(lineLen) := asciiKey]
    {
      if asciiKey == NUL || lineLen >= LINE_SIZE {
        return Ignored;
      }
      if asciiKey == NEWLINE {
        ghost var s := line[..];
        if s[lineLen] == NUL {
          Strings.CStrOf(s, 0, lineLen);
        } else {
          Strings.CStrOf(s, 0, lineLen + 1);
        }
        r := Submitted(Strings.CStr(line[..], 0), lineLen);
        lineLen := 0;
        var j := 0;
        while j < LINE_SIZE
          invariant 0 <= j <= LINE_SIZE && lineLen == 0
          invariant forall k :: 0 <= k < j ==> line[k] == NUL
        {
          line[j] := NUL;
          j := j + 1;
        }
        assert line[..] == seq(LINE_SIZE, j => NUL);
        return;
      } else if asciiKey == BACKSPACE {
        if lineLen == 0 {
          return Ignored;
        }
        line[lineLen] := NUL;
        lineLen := lineLen - 1;
        return Erased;
      }
      line[lineLen] := asciiKey;
      lineLen := lineLen + 1;
      return Stored;
    }
  }

  /**
   * Backspace right after a key is typed erases nothing: the NUL goes where
   * a NUL already is, so the buffer still holds all `len` characters while
   * the length drops to `len - 1`, and a later Enter submits the character
   * that was meant to be erased.
   */
  lemma BackspaceKeepsCharacter(buf: seq<u8>, len: nat)
    requires |buf| == LINE_SIZE && 0 < len < LINE_SIZE && buf[len] == NUL
    requires forall j :: 0 <= j < len ==> buf[j] != NUL
    ensures buf[len := NUL] == buf
    ensures Strings.Terminated(buf[len := NUL], 0) && Strings.CStr(buf[len := NUL], 0) == buf[..len]
  {
    Strings.CStrOf(buf, 0, len);
  }
}
