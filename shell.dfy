/** The command-line parsing slice of the shell (shell.cpp): character
    classes, `toNum`, tokenising a command line into typed arguments
    (`setArgsGiven` over `strtok`), overloaded command lookup (`findCmd`)
    and the checks `invokeCmd` makes before it calls a command. C strings
    are `seq<char>` without their NUL; a null `char *` is `None`. */
module Shell {
  import opened Fs33Types

  // ---------------------------------------------------------------------
  // Character classes and numbers
  // ---------------------------------------------------------------------

  predicate IsDigit(c: char) {
    '0' <= c <= '9'
  }

  predicate IsAlphaNumDot(c: char) {
    c == '.' || 'a' <= c <= 'z' || 'A' <= c <= 'Z' || '0' <= c <= '9'
  }

  /** `isAlphaNumDot` accepts exactly the dot, the ASCII letters and the
      digits: every digit `isDigit` accepts, and no control character,
      space, slash or NUL. */
  lemma AlphaNumDotClasses(c: char)
    ensures IsDigit(c) ==> IsAlphaNumDot(c)
    ensures IsAlphaNumDot(c) ==> '.' <= c <= 'z' && c != '/'
    ensures IsAlphaNumDot(c) && !IsDigit(c) && c != '.' ==> ('a' <= c <= 'z' || 'A' <= c <= 'Z')
  {
  }

  function DigitValue(c: char): nat
    requires IsDigit(c)
  {
    (c as int) - ('0' as int)
  }

  /** The number of leading decimal digits of `s` from `i` on. */
  function DigitRun(s: seq<char>, i: nat): (j: nat)
    requires i <= |s|
    ensures i <= j <= |s|
    ensures forall k :: i <= k < j ==> IsDigit(s[k])
    ensures j < |s| ==> !IsDigit(s[j])
    decreases |s| - i
  {
    if i < |s| && IsDigit(s[i]) then DigitRun(s, i + 1) else i
  }

  /** The value of a string of decimal digits, most significant first. */
  function DecimalValue(d: seq<char>): nat
    requires forall k :: 0 <= k < |d| ==> IsDigit(d[k])
  {
    if d == [] then 0 else 10 * DecimalValue(d[..|d| - 1]) + DigitValue(d[|d| - 1])
  }

  /** `atoi` on a string that starts with a digit: accumulate digits left
      to right while they last. */
  function Atoi(s: seq<char>, i: nat, acc: nat): nat
    requires i <= |s|
    decreases |s| - i
  {
    if i < |s| && IsDigit(s[i]) then Atoi(s, i + 1, 10 * acc + DigitValue(s[i])) else acc
  }

  /** `toNum`: 0 for a null pointer or a string that does not start with a
      digit, else `atoi`. */
  function ToNum(p: Option<seq<char>>): nat {
    if p.Some? && |p.value| > 0 && IsDigit(p.value[0]) then Atoi(p.value, 0, 0) else 0
  }

  lemma {:induction false} AtoiIsDecimalValue(s: seq<char>, i: nat, acc: nat)
    requires i <= |s| && forall k :: 0 <= k < i ==> IsDigit(s[k])
    requires acc == DecimalValue(s[..i])
    ensures Atoi(s, i, acc) == DecimalValue(s[..DigitRun(s, i)])
    decreases |s| - i
  {
    if i < |s| && IsDigit(s[i]) {
      assert s[..i + 1][..i] == s[..i];
      AtoiIsDecimalValue(s, i + 1, 10 * acc + DigitValue(s[i]));
    }
  }

  /** `toNum` is 0 unless the string starts with a digit, and then it is
      the value of the string's leading run of digits. */
  lemma ToNumIsLeadingValue(p: Option<seq<char>>)
    ensures p.None? || |p.value| == 0 || !IsDigit(p.value[0]) ==> ToNum(p) == 0
    ensures p.Some? && |p.value| > 0 && IsDigit(p.value[0]) ==>
      ToNum(p) == DecimalValue(p.value[..DigitRun(p.value, 0)])
  {
    if p.Some? && |p.value| > 0 && IsDigit(p.value[0]) {
      AtoiIsDecimalValue(p.value, 0, 0);
    }
  }

  /** The decimal numeral of `n`, as `printf("%u")` writes it. */
  function Decimal(n: nat): (d: seq<char>)
    ensures |d| > 0 && forall k :: 0 <= k < |d| ==> IsDigit(d[k])
  {
    if n < 10 then [(n + '0' as int) as char]
    else Decimal(n / 10) + [((n % 10) + '0' as int) as char]
  }

  lemma {:induction false} DecimalValueOfDecimal(n: nat)
    ensures DecimalValue(Decimal(n)) == n
  {
    var d := Decimal(n);
    if n >= 10 {
      assert d[..|d| - 1] == Decimal(n / 10);
      DecimalValueOfDecimal(n / 10);
    }
  }

  lemma {:induction false} DigitRunOfDigits(s: seq<char>, i: nat)
    requires i <= |s| && forall k :: i <= k < |s| ==> IsDigit(s[k])
    ensures DigitRun(s, i) == |s|
    decreases |s| - i
  {
    if i < |s| {
      DigitRunOfDigits(s, i + 1);
    }
  }

  /** Round trip: `toNum` reads back any number written in decimal. */
  lemma ToNumOfDecimal(n: nat)
    ensures ToNum(Some(Decimal(n))) == n
  {
    var d := Decimal(n);
    ToNumIsLeadingValue(Some(d));
    assert DigitRun(d, 0) == |d| by {
      DigitRunOfDigits(d, 0);
    }
    assert d[..|d|] == d;
    DecimalValueOfDecimal(n);
  }

  // ---------------------------------------------------------------------
  // Tokenising (strtok, setArgsGiven)
  // ---------------------------------------------------------------------

  const NUL: char := '\0'

  /** The delimiters of the command name, and of the arguments. */
  const CMD_DELIMS: set<char> := {' ', '\t', '\n'}
  const ARG_DELIMS: set<char> := {' ', '\t'}

  /** From `i`, skip delimiters: the first index holding a non-delimiter,
      possibly the NUL. */
  function SkipDelims(s: seq<char>, i: nat, delims: set<char>): (j: nat)
    requires i <= |s|
    ensures i <= j <= |s|
    ensures j < |s| ==> s[j] !in delims
    decreases |s| - i
  {
    if i < |s| && s[i] in delims then SkipDelims(s, i + 1, delims) else i
  }

  lemma {:induction false} SkipDelimsSpec(s: seq<char>, i: nat, delims: set<char>)
    requires i <= |s|
    ensures forall k :: i <= k < SkipDelims(s, i, delims) ==> s[k] in delims
    decreases |s| - i
  {
    if i < |s| && s[i] in delims {
      SkipDelimsSpec(s, i + 1, delims);
    }
  }

  /** From `i`, the end of a token: the first delimiter or NUL. */
  function TokenEnd(s: seq<char>, i: nat, delims: set<char>): (j: nat)
    requires i <= |s|
    ensures i <= j <= |s|
    ensures j < |s| ==> s[j] in delims || s[j] == NUL
    decreases |s| - i
  {
    if i < |s| && s[i] !in delims && s[i] != NUL then TokenEnd(s, i + 1, delims) else i
  }

  lemma {:induction false} TokenEndSpec(s: seq<char>, i: nat, delims: set<char>)
    requires i <= |s|
    ensures forall k :: i <= k < TokenEnd(s, i, delims) ==> s[k] !in delims && s[k] != NUL
    decreases |s| - i
  {
    if i < |s| && s[i] !in delims && s[i] != NUL {
      TokenEndSpec(s, i + 1, delims);
    }
  }

  /** One `strtok` call: the token found from position `from` (if any),
      the position the next call resumes from, and the buffer after the
      call, in which the delimiter that ended the token is overwritten by
      NUL. */
  datatype TokStep = TokStep(tok: Option<seq<char>>, next: nat, buf: seq<char>)

  function Tok(s: seq<char>, from: nat, delims: set<char>): (r: TokStep)
    requires from <= |s| && NUL !in delims
    ensures r.next <= |s| && |r.buf| == |s|
  {
    var b := SkipDelims(s, from, delims);
    if b == |s| || s[b] == NUL then TokStep(None, b, s)
    else
      var e := TokenEnd(s, b, delims);
      if e < |s| && s[e] != NUL then TokStep(Some(s[b..e]), e + 1, s[e := NUL])
      else TokStep(Some(s[b..e]), e, s)
  }

  /** What `strtok` promises: a token is the run `s[b..e]` that follows
      only delimiters from `from`; it is non-empty, holds no delimiter and
      no NUL, and is maximal (it ends at a delimiter, a NUL or the end);
      the next call resumes after the delimiter that ended it, which is
      overwritten by NUL, and the buffer changes in no other place. With no
      token left, only delimiters precede a NUL or the end, and nothing
      changes. */
  lemma TokSpec(s: seq<char>, from: nat, delims: set<char>)
    requires from <= |s| && NUL !in delims
    ensures var r := Tok(s, from, delims);
      && (r.tok.None? ==>
            && r.buf == s && (r.next == |s| || s[r.next] == NUL)
            && forall k :: from <= k < r.next ==> s[k] in delims)
      && (r.tok.Some? ==>
            && |r.tok.value| > 0
            && (forall k :: 0 <= k < |r.tok.value| ==> r.tok.value[k] !in delims && r.tok.value[k] != NUL)
            && from < r.next
            && (forall k :: 0 <= k < |s| ==> r.buf[k] == s[k] || (r.buf[k] == NUL && s[k] in delims)))
      && (r.tok.Some? ==> exists b, e ::
            && from <= b < e <= |s| && r.tok.value == s[b..e]
            && (forall k :: from <= k < b ==> s[k] in delims)
            && (e == |s| || s[e] in delims || s[e] == NUL)
            && r.next == (if e < |s| && s[e] != NUL then e + 1 else e))
  {
    SkipDelimsSpec(s, from, delims);
    var b := SkipDelims(s, from, delims);
    if b == |s| || s[b] == NUL {
      assert Tok(s, from, delims) == TokStep(None, b, s);
    } else {
      TokenEndSpec(s, b, delims);
      var e := TokenEnd(s, b, delims);
      var t := s[b..e];
      assert forall k :: 0 <= k < |t| ==> t[k] == s[b + k];
      assert from <= b < e <= |s| && t == s[b..e];
      if e < |s| && s[e] != NUL {
        assert Tok(s, from, delims) == TokStep(Some(t), e + 1, s[e := NUL]);
        assert s[e] in delims;
      } else {
        assert Tok(s, from, delims) == TokStep(Some(t), e, s);
      }
    }
  }

  /** `strtok` over the array `buf`, with its saved position made an
      explicit parameter and result. */
  method StrTok(buf: array<char>, from: nat, delims: set<char>) returns (tok: Option<seq<char>>, next: nat)
    requires from <= buf.Length && NUL !in delims
    modifies buf
    ensures var r := Tok(old(buf[..]), from, delims);
      tok == r.tok && next == r.next && buf[..] == r.buf
  {
    var b := from;
    while b < buf.Length && buf[b] in delims
      invariant from <= b <= buf.Length
      invariant SkipDelims(buf[..], b, delims) == SkipDelims(buf[..], from, delims)
    {
      b := b + 1;
    }
    if b == buf.Length || buf[b] == NUL {
      return None, b;
    }
    var e := b;
    while e < buf.Length && buf[e] !in delims && buf[e] != NUL
      invariant b <= e <= buf.Length
      invariant TokenEnd(buf[..], e, delims) == TokenEnd(buf[..], b, delims)
    {
      e := e + 1;
    }
    tok := Some(buf[b..e]);
    if e < buf.Length && buf[e] != NUL {
      buf[e] := NUL;
      next := e + 1;
    } else {
      next := e;
    }
  }

  /** An argument: the token (`s`, null when absent) and its value as a
      number (`u`). */
  datatype Arg = Arg(s: Option<seq<char>>, u: nat)

  /** The argument tokens `setArgsGiven` collects: up to `n` more tokens
      from position `from`, with the buffer after the calls. */
  function ArgTokens(s: seq<char>, from: nat, n: nat): (r: (seq<seq<char>>, seq<char>))
    requires from <= |s|
    ensures |r.0| <= n && |r.1| == |s|
    decreases n, 1
  {
    if n == 0 then ([], s) else ArgStep(s, from, n)
  }

  /** One `strtok` call of `ArgTokens`, with at least one slot left: no
      (or an empty) token ends the collection, else the token heads it. */
  function ArgStep(s: seq<char>, from: nat, n: nat): (r: (seq<seq<char>>, seq<char>))
    requires from <= |s| && n > 0
    ensures |r.0| <= n && |r.1| == |s|
    decreases n, 0
  {
    var t := Tok(s, from, ARG_DELIMS);
    if t.tok.None? || |t.tok.value| == 0 then ([], t.buf)
    else
      var rest := ArgTokens(t.buf, t.next, n - 1);
      ([t.tok.value] + rest.0, rest.1)
  }

  /** One step of `ArgTokens`: when `strtok` finds a token, it heads the
      list and the rest are collected from where `strtok` stopped. */
  lemma ArgTokensNext(s: seq<char>, from: nat, n: nat, ts: seq<seq<char>>, after: seq<char>, t: TokStep)
    requires from <= |s| && ArgTokens(s, from, n + 1) == (ts, after)
    requires t == Tok(s, from, ARG_DELIMS) && t.tok.Some? && |t.tok.value| > 0
    ensures t.next <= |t.buf| && |ts| > 0 && ts[0] == t.tok.value
    ensures ArgTokens(t.buf, t.next, n) == (ts[1..], after)
  {
  }

  /** `ArgTokens` ends where `strtok` finds no token, with the buffer that
      call leaves. */
  lemma ArgTokensStop(s: seq<char>, from: nat, n: nat, ts: seq<seq<char>>, after: seq<char>, t: TokStep)
    requires from <= |s| && ArgTokens(s, from, n + 1) == (ts, after)
    requires t == Tok(s, from, ARG_DELIMS) && (t.tok.None? || |t.tok.value| == 0)
    ensures ts == [] && after == t.buf
  {
  }

  /** Tokens that are non-empty and hold no argument delimiter and no NUL. */
  predicate Words(ts: seq<seq<char>>) {
    forall i :: 0 <= i < |ts| ==>
      |ts[i]| > 0 && forall k :: 0 <= k < |ts[i]| ==> ts[i][k] !in ARG_DELIMS && ts[i][k] != NUL
  }

  /** Every argument token is a word. */
  lemma {:induction false} ArgTokensAreWords(s: seq<char>, from: nat, n: nat)
    requires from <= |s|
    ensures Words(ArgTokens(s, from, n).0)
    decreases n
  {
    if n > 0 {
      var t := Tok(s, from, ARG_DELIMS);
      TokSpec(s, from, ARG_DELIMS);
      if t.tok.Some? && |t.tok.value| > 0 {
        ArgTokensAreWords(t.buf, t.next, n - 1);
        var rest := ArgTokens(t.buf, t.next, n - 1).0;
        var ts := ArgTokens(s, from, n).0;
        assert ts == ArgStep(s, from, n).0 == [t.tok.value] + rest;
        forall i | 0 <= i < |ts|
          ensures |ts[i]| > 0 && forall k :: 0 <= k < |ts[i]| ==> ts[i][k] !in ARG_DELIMS && ts[i][k] != NUL
        {
          if i > 0 {
            assert ts[i] == rest[i - 1];
          } else {
            assert ts[i] == t.tok.value;
          }
        }
      }
    }
  }

  /** The command line `s` split as `setArgsGiven` splits it: the
      command-name call, then at most `nMax` argument tokens. */
  function CommandLine(s: seq<char>, nMax: nat): (seq<seq<char>>, seq<char>) {
    var first := Tok(s, 0, CMD_DELIMS);
    ArgTokens(first.buf, first.next, nMax)
  }

  /** The type letter of an argument: `u` when it starts with a digit. */
  function TypeOf(tok: seq<char>): char {
    if |tok| > 0 && IsDigit(tok[0]) then 'u' else 's'
  }

  function ArgOf(tok: seq<char>): Arg {
    Arg(Some(tok), ToNum(Some(tok)))
  }

  /** Moving the first of the tokens still to come to those taken. */
  lemma MoveFirst<T>(done: seq<T>, rest: seq<T>)
    requires |rest| > 0
    ensures (done + [rest[0]]) + rest[1..] == done + rest
  {
    assert rest == [rest[0]] + rest[1..];
  }

  /** The first loop of `setArgsGiven`: null every argument string and
      clear every type below `nMax`. */
  method ClearSlots(arg: array<Arg>, types: array<char>, nMax: nat)
    requires arg.Length >= nMax && types.Length > nMax
    modifies arg, types
    ensures forall j :: 0 <= j < nMax ==> arg[j] == old(arg[j]).(s := None) && types[j] == NUL
    ensures forall j :: nMax <= j < arg.Length ==> arg[j] == old(arg[j])
    ensures types[nMax] == old(types[nMax])
  {
    var i: nat := 0;
    while i < nMax
      invariant i <= nMax
      invariant forall j :: 0 <= j < i ==> arg[j] == old(arg[j]).(s := None) && types[j] == NUL
      invariant forall j :: i <= j < arg.Length ==> arg[j] == old(arg[j])
      invariant types[nMax] == old(types[nMax])
    {
      arg[i] := arg[i].(s := None);
      types[i] := NUL;
      i := i + 1;
    }
  }

  /** One `strtok` call of the second loop of `setArgsGiven`, stated
      against `ArgTokens`: a non-empty token is the first of the `rest`
      still to come, and the collection goes on from `next`; otherwise
      there is none left and the buffer is final. */
  method NextArg(buf: array<char>, pos: nat, ghost left: nat, ghost rest: seq<seq<char>>, ghost after: seq<char>)
    returns (q: Option<seq<char>>, next: nat)
    requires pos <= buf.Length && left > 0 && ArgTokens(buf[..], pos, left) == (rest, after)
    modifies buf
    ensures q.Some? && |q.value| > 0 ==>
      |rest| > 0 && q.value == rest[0] && next <= buf.Length && ArgTokens(buf[..], next, left - 1) == (rest[1..], after)
    ensures q.None? || |q.value| == 0 ==> rest == [] && buf[..] == after
  {
    ghost var b0 := buf[..];
    q, next := StrTok(buf, pos, ARG_DELIMS);
    ghost var t := TokStep(q, next, buf[..]);
    if q.Some? && |q.value| > 0 {
      ArgTokensNext(b0, pos, left - 1, rest, after, t);
    } else {
      ArgTokensStop(b0, pos, left - 1, rest, after, t);
    }
  }

  /** One pass of the second loop of `setArgsGiven`: the next token, if
      there is one, fills slot `i` and its type. */
  method TakeArg(buf: array<char>, arg: array<Arg>, types: array<char>, pos: nat, i: nat,
                 ghost left: nat, ghost rest: seq<seq<char>>, ghost after: seq<char>)
    returns (more: bool, next: nat)
    requires pos <= buf.Length && i < arg.Length && i < types.Length && types != buf
    requires left > 0 && ArgTokens(buf[..], pos, left) == (rest, after)
    modifies buf, arg, types
    ensures more ==> |rest| > 0 && next <= buf.Length && ArgTokens(buf[..], next, left - 1) == (rest[1..], after)
    ensures !more ==> rest == [] && buf[..] == after
    ensures more ==> arg[i] == ArgOf(rest[0]) && types[i] == TypeOf(rest[0])
    ensures forall j :: 0 <= j < arg.Length && (j != i || !more) ==> arg[j] == old(arg[j])
    ensures forall j :: 0 <= j < types.Length && (j != i || !more) ==> types[j] == old(types[j])
  {
    var q;
    q, next := NextArg(buf, pos, left, rest, after);
    more := q.Some? && |q.value| > 0;
    if more {
      arg[i] := Arg(q, ToNum(q));
      types[i] := if IsDigit(q.value[0]) then 'u' else 's';
    }
  }

  /** The second loop of `setArgsGiven`: one `strtok` call per slot until
      the tokens run out; the tokens fill the first slots and their types,
      and their count becomes `nArgs` when there is one at least. */
  method FillSlots(buf: array<char>, arg: array<Arg>, types: array<char>, pos0: nat, nMax: nat, nArgs0: nat)
    returns (nArgs: nat)
    requires pos0 <= buf.Length && arg.Length >= nMax && types.Length > nMax && types != buf
    modifies buf, arg, types
    ensures var (toks, b) := ArgTokens(old(buf[..]), pos0, nMax);
      && buf[..] == b
      && (nArgs == if |toks| > 0 then |toks| else nArgs0)
      && (forall j :: 0 <= j < |toks| ==> arg[j] == ArgOf(toks[j]) && types[j] == TypeOf(toks[j]))
      && (forall j :: |toks| <= j < arg.Length ==> arg[j] == old(arg[j]))
      && (forall j :: |toks| <= j < types.Length ==> types[j] == old(types[j]))
  {
    ghost var toks := ArgTokens(buf[..], pos0, nMax).0;
    ghost var after := ArgTokens(buf[..], pos0, nMax).1;
    ghost var arg1, types1 := arg[..], types[..];
    ghost var done, rest, left := [], toks, nMax;
    var pos: nat := pos0;
    nArgs := nArgs0;
    var i: nat := 0;
    while i < nMax
      invariant i <= nMax && left == nMax - i && pos <= buf.Length && |done| == i && done + rest == toks
      invariant ArgTokens(buf[..], pos, left) == (rest, after)
      invariant nArgs == if i > 0 then i else nArgs0
      invariant forall j :: 0 <= j < i ==> arg[j] == ArgOf(done[j]) && types[j] == TypeOf(done[j])
      invariant forall j :: i <= j < arg.Length ==> arg[j] == arg1[j]
      invariant forall j :: i <= j < types.Length ==> types[j] == types1[j]
    {
      var more, next := TakeArg(buf, arg, types, pos, i, left, rest, after);
      if !more {
        break;
      }
      MoveFirst(done, rest);
      done, rest, left := done + [rest[0]], rest[1..], left - 1;
      i := i + 1;
      nArgs := i;
      pos := next;
    }
  }

  /** `setArgsGiven`: clear the `nMax` argument slots and their types,
      terminate `types`, split the line and fill one slot per argument
      token; `nArgs` (a global) becomes the token count when there is at
      least one token and keeps its value otherwise. */
  method SetArgsGiven(buf: array<char>, arg: array<Arg>, types: array<char>, nMax: nat, nArgs0: nat)
    returns (nArgs: nat)
    requires arg.Length >= nMax && types.Length == nMax + 1 && types != buf
    modifies buf, arg, types
    ensures var (toks, b) := CommandLine(old(buf[..]), nMax);
      && buf[..] == b
      && (nArgs == if |toks| > 0 then |toks| else nArgs0)
      && types[nMax] == NUL
      && (forall i :: 0 <= i < |toks| ==> arg[i] == ArgOf(toks[i]) && types[i] == TypeOf(toks[i]))
      && (forall i :: |toks| <= i < nMax ==> arg[i] == old(arg[i]).(s := None) && types[i] == NUL)
      && (forall i :: nMax <= i < arg.Length ==> arg[i] == old(arg[i]))
  {
    ghost var line := buf[..];
    ClearSlots(arg, types, nMax);
    types[nMax] := NUL;
    ghost var arg1, types1 := arg[..], types[..];
    var _, pos: nat := StrTok(buf, 0, CMD_DELIMS);
    nArgs := FillSlots(buf, arg, types, pos, nMax, nArgs0);
    ghost var k := |CommandLine(line, nMax).0|;
    assert forall j :: k <= j < arg.Length ==> arg[j] == arg1[j - k + k];
    assert forall j :: k <= j < types.Length ==> types[j] == types1[j - k + k];
  }

  // ---------------------------------------------------------------------
  // The command table, findCmd and invokeCmd
  // ---------------------------------------------------------------------

  /** The `doXxx` function a table row calls. */
  datatype Handler =
    | ChDir | Copy | Echo | Inode | LsLong | MkDir | MakeDisk | MakeFV
    | MountUS | MountDF | Mv | ReadDisk | Rm | Pwd | Quit | Umount | WriteDisk

  /** A row of `cmdTable`: the command's name, the type letters of the
      arguments it requires, the global it needs (`v` the current volume,
      `m` the mount table, or none) and its handler. */
  datatype CmdEntry = CmdEntry(name: seq<char>, argsRequired: seq<char>, globalsNeeded: seq<char>, handler: Handler)

  const CMD_TABLE: seq<CmdEntry> := [
    CmdEntry("cd", "s", "v", ChDir),
    CmdEntry("cp", "ss", "v", Copy),
    CmdEntry("echo", "ssss", "", Echo),
    CmdEntry("inode", "u", "v", Inode),
    CmdEntry("ls", "", "v", LsLong),
    CmdEntry("lslong", "", "v", LsLong),
    CmdEntry("mkdir", "s", "v", MkDir),
    CmdEntry("mkdisk", "s", "", MakeDisk),
    CmdEntry("mkfs", "s", "", MakeFV),
    CmdEntry("mount", "us", "", MountUS),
    CmdEntry("mount", "", "", MountDF),
    CmdEntry("mv", "ss", "v", Mv),
    CmdEntry("rddisk", "su", "", ReadDisk),
    CmdEntry("rmdir", "s", "v", Rm),
    CmdEntry("rm", "s", "v", Rm),
    CmdEntry("pwd", "", "v", Pwd),
    CmdEntry("q", "", "", Quit),
    CmdEntry("quit", "", "", Quit),
    CmdEntry("umount", "u", "m", Umount),
    CmdEntry("wrdisk", "sus", "", WriteDisk)
  ]

  /** The rows are told apart by name and signature together, every
      signature is made of `s` and `u` only, and every row needs at most
      one global, `v` or `m`. */
  lemma RowsDistinctHead()
    ensures forall i, j :: 0 <= i < j < |CMD_TABLE| && i < 7 ==>
      CMD_TABLE[i].name != CMD_TABLE[j].name || CMD_TABLE[i].argsRequired != CMD_TABLE[j].argsRequired
  {
  }

  lemma RowsDistinctTail()
    ensures forall i, j :: 7 <= i < j < |CMD_TABLE| ==>
      CMD_TABLE[i].name != CMD_TABLE[j].name || CMD_TABLE[i].argsRequired != CMD_TABLE[j].argsRequired
  {
  }

  /** The rows are told apart by name and signature together, every
      signature is made of `s` and `u` only, and every row needs at most
      one global, `v` or `m`. */
  lemma TableWellFormed()
    ensures forall i, j :: 0 <= i < j < |CMD_TABLE| ==>
      CMD_TABLE[i].name != CMD_TABLE[j].name || CMD_TABLE[i].argsRequired != CMD_TABLE[j].argsRequired
    ensures forall i, k :: 0 <= i < |CMD_TABLE| && 0 <= k < |CMD_TABLE[i].argsRequired| ==>
      CMD_TABLE[i].argsRequired[k] in {'s', 'u'}
    ensures forall i :: 0 <= i < |CMD_TABLE| ==> CMD_TABLE[i].globalsNeeded in {"", "v", "m"}
  {
    RowsDistinctHead();
    RowsDistinctTail();
  }

  predicate Matches(e: CmdEntry, name: seq<char>, argtypes: seq<char>) {
    e.name == name && e.argsRequired == argtypes
  }

  /** The first row at or after `i` that matches, or -1. */
  function FirstCmdFrom(name: seq<char>, argtypes: seq<char>, i: nat): (k: int)
    requires i <= |CMD_TABLE|
    ensures k == -1 || i <= k < |CMD_TABLE|
    decreases |CMD_TABLE| - i
  {
    if i == |CMD_TABLE| then -1
    else if Matches(CMD_TABLE[i], name, argtypes) then i
    else FirstCmdFrom(name, argtypes, i + 1)
  }

  function FirstCmd(name: seq<char>, argtypes: seq<char>): int {
    FirstCmdFrom(name, argtypes, 0)
  }

  lemma {:induction false} FirstCmdFromSpec(name: seq<char>, argtypes: seq<char>, i: nat)
    requires i <= |CMD_TABLE|
    ensures var k := FirstCmdFrom(name, argtypes, i);
      && (k == -1 || i <= k < |CMD_TABLE|)
      && (k >= 0 ==> Matches(CMD_TABLE[k], name, argtypes))
      && (forall j :: i <= j < |CMD_TABLE| && (k == -1 || j < k) ==> !Matches(CMD_TABLE[j], name, argtypes))
    decreases |CMD_TABLE| - i
  {
    if i < |CMD_TABLE| && !Matches(CMD_TABLE[i], name, argtypes) {
      FirstCmdFromSpec(name, argtypes, i + 1);
    }
  }

  /** `findCmd` finds the first row with this name and this signature, and
      -1 when no row has both. */
  lemma FirstCmdSpec(name: seq<char>, argtypes: seq<char>)
    ensures var k := FirstCmd(name, argtypes);
      && -1 <= k < |CMD_TABLE|
      && (k >= 0 ==> Matches(CMD_TABLE[k], name, argtypes))
      && (forall j :: 0 <= j < |CMD_TABLE| && (k == -1 || j < k) ==> !Matches(CMD_TABLE[j], name, argtypes))
  {
    FirstCmdFromSpec(name, argtypes, 0);
  }

  /** Every row is the one `findCmd` finds for its own name and signature,
      so no row is shadowed; in particular `mount` resolves by signature. */
  lemma EveryRowReachable(k: nat)
    requires k < |CMD_TABLE|
    ensures FirstCmd(CMD_TABLE[k].name, CMD_TABLE[k].argsRequired) == k
  {
    TableWellFormed();
    FirstCmdSpec(CMD_TABLE[k].name, CMD_TABLE[k].argsRequired);
  }

  /** `findCmd`: a linear search of the table. */
  method FindCmd(name: seq<char>, argtypes: seq<char>) returns (k: int)
    ensures k == FirstCmd(name, argtypes)
  {
    var i := 0;
    while i < |CMD_TABLE|
      invariant i <= |CMD_TABLE|
      invariant FirstCmdFrom(name, argtypes, i) == FirstCmd(name, argtypes)
    {
      if CMD_TABLE[i].name == name && CMD_TABLE[i].argsRequired == argtypes {
        return i;
      }
      i := i + 1;
    }
    return -1;
  }

  /** The first character of a C string, NUL when it is empty. */
  function First(s: seq<char>): char {
    if |s| > 0 then s[0] else NUL
  }

  /** The global a row needs is present: `cwdVNIN != 0` for `v`, a mount
      table for `m`. */
  predicate GlobalsOk(e: CmdEntry, cwdVNIN: nat, mtabPresent: bool) {
    !(First(e.globalsNeeded) == 'v' && cwdVNIN == 0) && !(First(e.globalsNeeded) == 'm' && !mtabPresent)
  }

  /** An argument meets its type letter: an `s` argument is a non-empty
      string, a `u` argument starts with a digit. */
  predicate ArgOk(req: char, a: Arg) {
    && (req == 's' ==> a.s.Some? && |a.s.value| > 0)
    && (req == 'u' ==> a.s.Some? && IsDigit(First(a.s.value)))
  }

  /** `invokeCmd`: check the global and every required argument, then call
      the row's handler; the result is the handler called, if any. */
  method InvokeCmd(k: nat, arg: array<Arg>, cwdVNIN: nat, mtabPresent: bool) returns (called: Option<Handler>)
    requires k < |CMD_TABLE| && |CMD_TABLE[k].argsRequired| <= arg.Length
    ensures called.Some? <==>
      GlobalsOk(CMD_TABLE[k], cwdVNIN, mtabPresent) &&
      forall i :: 0 <= i < |CMD_TABLE[k].argsRequired| ==> ArgOk(CMD_TABLE[k].argsRequired[i], arg[i])
    ensures called.Some? ==> called.value == CMD_TABLE[k].handler
  {
    var e := CMD_TABLE[k];
    var ok := true;
    var g := if |e.globalsNeeded| > 0 then e.globalsNeeded[0] else NUL;
    if g == 'v' && cwdVNIN == 0 {
      ok := false;
    } else if g == 'm' && !mtabPresent {
      ok := false;
    }
    var req := e.argsRequired;
    var i := 0;
    while i < |req|
      invariant i <= |req|
      invariant ok <==> GlobalsOk(e, cwdVNIN, mtabPresent) && forall j :: 0 <= j < i ==> ArgOk(req[j], arg[j])
    {
      var a := arg[i];
      if req[i] == 's' && (a.s.None? || |a.s.value| == 0) {
        ok := false;
      }
      if req[i] == 'u' && (a.s.None? || !IsDigit(if |a.s.value| > 0 then a.s.value[0] else NUL)) {
        ok := false;
      }
      i := i + 1;
    }
    if ok {
      called := Some(e.handler);
    } else {
      called := None;
    }
  }

  // ---------------------------------------------------------------------
  // From the command line to the call
  // ---------------------------------------------------------------------

  /** Index of the first NUL at or after `i`, or `|s|`. */
  function NulAt(s: seq<char>, i: nat): (j: nat)
    requires i <= |s|
    ensures i <= j <= |s|
    ensures j < |s| ==> s[j] == NUL
    decreases |s| - i
  {
    if i == |s| || s[i] == NUL then i else NulAt(s, i + 1)
  }

  /** The C string held by a char buffer. */
  function CharCStr(s: seq<char>): seq<char> {
    s[..NulAt(s, 0)]
  }

  /** The signature of the argument tokens: their type letters in order. */
  function Signature(toks: seq<seq<char>>): (sig: seq<char>)
    ensures |sig| == |toks| && forall j :: 0 <= j < |toks| ==> sig[j] == TypeOf(toks[j])
  {
    seq(|toks|, j requires 0 <= j < |toks| => TypeOf(toks[j]))
  }

  lemma {:induction false} NulAtSkips(s: seq<char>, i: nat, n: nat)
    requires i <= n < |s| && s[n] == NUL && forall j :: i <= j < n ==> s[j] != NUL
    ensures NulAt(s, i) == n
    decreases n - i
  {
    if i < n {
      NulAtSkips(s, i + 1, n);
    }
  }

  /** The `types` string that `setArgsGiven` leaves, read as the C string
      `findCmd` is given, is the signature of the tokens. */
  lemma TypesAreSignature(types: seq<char>, toks: seq<seq<char>>)
    requires |toks| < |types| && types[|toks|] == NUL
    requires forall j :: 0 <= j < |toks| ==> types[j] == TypeOf(toks[j])
    ensures CharCStr(types) == Signature(toks)
  {
    NulAtSkips(types, 0, |toks|);
  }

  /** When `findCmd` matched a row on the signature of the tokens, the
      argument checks of `invokeCmd` all pass on the slots `setArgsGiven`
      filled: only a missing global can stop the call. */
  lemma MatchedArgsPass(name: seq<char>, s: seq<char>, from: nat, n: nat)
    requires from <= |s|
    requires var toks := ArgTokens(s, from, n).0; FirstCmd(name, Signature(toks)) >= 0
    ensures var toks := ArgTokens(s, from, n).0; var e := CMD_TABLE[FirstCmd(name, Signature(toks))];
      |e.argsRequired| == |toks| && forall i :: 0 <= i < |toks| ==> ArgOk(e.argsRequired[i], ArgOf(toks[i]))
  {
    var toks := ArgTokens(s, from, n).0;
    ArgTokensAreWords(s, from, n);
    FirstCmdSpec(name, Signature(toks));
  }
}
