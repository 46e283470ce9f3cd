/** The ILLink command line (ILLink.cs): the argument records and their
    rendering, the quote-aware tokenizer, the grouping of tokens into flag
    groups, the classification of groups into arguments, and `Parse`, which
    also extracts the launcher and tool paths from the first line. */
module ILLink {
  import opened Wrappers
  import opened Text
  import opened Paths

  // ---------------------------------------------------------------------
  // Argument records

  /** One argument of the command line. `DotnetPathSection` and
      `ILLinkPathSection` exist as records but `Parse` never builds them. */
  datatype Argument =
    | UnknownArgument(value: string)
    | DotnetPathSection(path: string)
    | ILLinkPathSection(path: string)
    | Root(assemblyPath: string, mode: Option<string>)
    | Reference(assemblyPath: string)
    | Out(path: string)
    | Descriptor(path: string)
    | LinkAttributes(path: string)
    | SearchDirectory(path: string)
  {
    /** The record's `ToString`, i.e. its line in a response file. A `Root`
        without a mode keeps the space before the (empty) mode. */
    function ToString(): string
    {
      match this
      case UnknownArgument(v) => v
      case DotnetPathSection(p) => p
      case ILLinkPathSection(p) => p
      case Root(p, m) => "-a " + p + " " + (if m.Some? then m.value else "")
      case Reference(p) => "-reference " + p
      case Out(p) => "-out " + p
      case Descriptor(p) => "-x " + p
      case LinkAttributes(p) => "--link-attributes " + p
      case SearchDirectory(p) => "-d " + p
    }
  }

  /** Why a command line is rejected; each stands for an exception. */
  datatype ParseError =
    | NoQuoteInFirstLine       // `firstLine[..-1]` throws
    | NoToolPath               // the first line yields no token
    | MissingValue(flag: string) // `lineParts[1]` is out of range

  /** What a successfully constructed `ILLink` object holds. */
  datatype Invocation = Invocation(dotnetPath: string, illinkPath: string, arguments: seq<Argument>)

  // ---------------------------------------------------------------------
  // Tokenizer

  /** Number of '"' characters in `s`. */
  function QuoteCount(s: string): nat
  {
    if |s| == 0 then 0 else QuoteCount(s[..|s| - 1]) + (if s[|s| - 1] == '"' then 1 else 0)
  }

  lemma QuoteCountStep(line: string, i: nat)
    requires i < |line|
    ensures QuoteCount(line[..i + 1]) == QuoteCount(line[..i]) + (if line[i] == '"' then 1 else 0)
  {
    assert line[..i + 1][..i] == line[..i];
  }

  /** No quote is open before position `i`: the scan has flipped its
      `quoted` flag an even number of times. */
  predicate Unquoted(line: string, i: nat)
    requires i <= |line|
  {
    i == 0 || (Unquoted(line, i - 1) <==> line[i - 1] != '"')
  }

  /** Being unquoted is having an even number of quotes before. */
  lemma {:induction false} UnquotedParity(line: string, i: nat)
    requires i <= |line|
    ensures Unquoted(line, i) <==> QuoteCount(line[..i]) % 2 == 0
  {
    if i == 0 {
      assert line[..0] == [];
    } else {
      UnquotedParity(line, i - 1);
      QuoteCountStep(line, i - 1);
    }
  }

  /** Position `i` separates tokens: a space preceded by an even number of
      quotes, i.e. a space outside any quoted span. */
  predicate IsSeparator(line: string, i: nat)
    requires i < |line|
  {
    line[i] == ' ' && Unquoted(line, i)
  }

  /** The first separator at or after `i` (or the end of the line). */
  function RunEnd(line: string, i: nat): (e: nat)
    requires i <= |line|
    ensures i <= e <= |line|
    ensures e == |line| || IsSeparator(line, e)
    ensures forall k :: i <= k < e ==> !IsSeparator(line, k)
    decreases |line| - i
  {
    if i == |line| || IsSeparator(line, i) then i else RunEnd(line, i + 1)
  }

  /** The tokens of `line[i..]`: the maximal runs of non-separator positions,
      each taken as the slice of the line it covers. */
  function TokensFrom(line: string, i: nat): (ts: seq<string>)
    requires i <= |line|
    decreases |line| - i
  {
    if i == |line| then []
    else if IsSeparator(line, i) then TokensFrom(line, i + 1)
    else
      var e := RunEnd(line, i);
      [line[i..e]] + TokensFrom(line, e)
  }

  /** Empty tokens are dropped: every token holds at least one character. */
  lemma {:induction false} TokensNonEmpty(line: string, i: nat)
    requires i <= |line|
    ensures forall j :: 0 <= j < |TokensFrom(line, i)| ==> |TokensFrom(line, i)[j]| > 0
    decreases |line| - i
  {
    if i < |line| {
      if IsSeparator(line, i) {
        TokensNonEmpty(line, i + 1);
      } else {
        var e := RunEnd(line, i);
        TokensNonEmpty(line, e);
        var ts := TokensFrom(line, i);
        assert ts == [line[i..e]] + TokensFrom(line, e);
        forall j | 0 <= j < |ts| ensures |ts[j]| > 0 {
          if j > 0 {
            assert ts[j] == TokensFrom(line, e)[j - 1];
          }
        }
      }
    }
  }

  function Tokens(line: string): seq<string>
  {
    TokensFrom(line, 0)
  }

  /** `SplitLine`: scans the line once, flipping `quoted` on every '"' and
      cutting at every space met while unquoted; empty tokens are dropped. */
  method SplitLine(line: string) returns (tokens: seq<string>)
    ensures tokens == Tokens(line)
  {
    var quoted := false;
    var start := 0;
    tokens := [];
    for i := 0 to |line|
      invariant start <= i
      invariant quoted <==> !Unquoted(line, i)
      invariant RunEnd(line, start) >= i
      invariant tokens + TokensFrom(line, start) == Tokens(line)
    {
      if !IsSeparator(line, i) {
        RunContinues(line, start, i);
      }
      if line[i] == '"' {
        quoted := !quoted;
      } else if line[i] == ' ' {
        if !quoted {
          CutAt(line, start, i);
          if start < i {
            SeqAssoc(tokens, [line[start..i]], TokensFrom(line, i + 1));
            tokens := tokens + [line[start..i]];
          }
          start := i + 1;
        }
      }
    }
    CutAtEnd(line, start);
    if start < |line| {
      tokens := tokens + [line[start..]];
    }
  }

  /** A run with no separator up to `i` continues past a non-separator `i`. */
  lemma RunContinues(line: string, start: nat, i: nat)
    requires start <= i < |line| && RunEnd(line, start) >= i && !IsSeparator(line, i)
    ensures RunEnd(line, start) >= i + 1
  {
  }

  /** Cutting at a separator `i` when none lies in `line[start..i]`: the
      tokens from `start` are that run, if it is not empty, and the tokens
      after the separator. */
  lemma CutAt(line: string, start: nat, i: nat)
    requires start <= i < |line| && RunEnd(line, start) >= i && IsSeparator(line, i)
    ensures RunEnd(line, i + 1) >= i + 1
    ensures TokensFrom(line, start) ==
              (if start < i then [line[start..i]] else []) + TokensFrom(line, i + 1)
  {
    if start < i {
      assert !IsSeparator(line, start);
      assert RunEnd(line, start) == i;
    }
  }

  /** At the end of the line the run from `start` is the last token. */
  lemma CutAtEnd(line: string, start: nat)
    requires start <= |line| && RunEnd(line, start) >= |line|
    ensures TokensFrom(line, start) == if start < |line| then [line[start..]] else []
  {
    if start < |line| {
      assert !IsSeparator(line, start);
      assert line[start..RunEnd(line, start)] == line[start..];
    }
  }

  /** The characters of `line[i..]` at positions that are not separators. */
  function Unseparated(line: string, i: nat): string
    requires i <= |line|
    decreases |line| - i
  {
    if i == |line| then []
    else (if IsSeparator(line, i) then [] else [line[i]]) + Unseparated(line, i + 1)
  }

  lemma {:induction false} UnseparatedRun(line: string, i: nat, e: nat)
    requires i <= e <= |line|
    requires forall k :: i <= k < e ==> !IsSeparator(line, k)
    ensures Unseparated(line, i) == line[i..e] + Unseparated(line, e)
    decreases e - i
  {
    if i < e {
      UnseparatedRun(line, i + 1, e);
      assert !IsSeparator(line, i);
      assert Unseparated(line, i) == [line[i]] + Unseparated(line, i + 1);
      assert line[i..e] == [line[i]] + line[i + 1..e];
    }
  }

  /** Concatenating the tokens gives back the line with exactly its
      unquoted spaces removed: quotes and quoted spaces stay in the tokens. */
  lemma {:induction false} TokensConcat(line: string, i: nat)
    requires i <= |line|
    ensures Flatten(TokensFrom(line, i)) == Unseparated(line, i)
    decreases |line| - i
  {
    if i < |line| {
      if IsSeparator(line, i) {
        TokensConcat(line, i + 1);
      } else {
        var e := RunEnd(line, i);
        TokensConcat(line, e);
        UnseparatedRun(line, i, e);
        assert ([line[i..e]] + TokensFrom(line, e))[1..] == TokensFrom(line, e);
      }
    }
  }

  /** The token spans of `line[i..]`, as (start, end) positions. */
  function SpansFrom(line: string, i: nat): seq<(nat, nat)>
    requires i <= |line|
    decreases |line| - i
  {
    if i == |line| then []
    else if IsSeparator(line, i) then SpansFrom(line, i + 1)
    else
      var e := RunEnd(line, i);
      [(i, e)] + SpansFrom(line, e)
  }

  /** `t` is the slice of `line` at span `s`, and no position of it separates. */
  ghost predicate IsTokenSpan(line: string, t: string, s: (nat, nat))
  {
    s.0 < s.1 <= |line| && t == line[s.0..s.1] &&
    forall k :: s.0 <= k < s.1 ==> !IsSeparator(line, k)
  }

  /** Spans lie left to right without overlap, each followed by a separator
      before the next one starts. */
  ghost predicate SpansInOrder(line: string, sp: seq<(nat, nat)>)
  {
    (forall j, k :: 0 <= j < k < |sp| ==> sp[j].1 < sp[k].0) &&
    (forall j :: 0 <= j < |sp| - 1 ==> sp[j].1 < |line| && IsSeparator(line, sp[j].1))
  }

  /** Each token is the contiguous slice of the line at its span, and holds
      no separator. */
  lemma {:induction false} TokensAreSlices(line: string, i: nat)
    requires i <= |line|
    ensures |SpansFrom(line, i)| == |TokensFrom(line, i)|
    ensures forall j :: 0 <= j < |SpansFrom(line, i)| ==>
              i <= SpansFrom(line, i)[j].0 && IsTokenSpan(line, TokensFrom(line, i)[j], SpansFrom(line, i)[j])
    decreases |line| - i
  {
    if i < |line| {
      if IsSeparator(line, i) {
        TokensAreSlices(line, i + 1);
      } else {
        var e := RunEnd(line, i);
        TokensAreSlices(line, e);
        var sp', ts' := SpansFrom(line, e), TokensFrom(line, e);
        var sp, ts := SpansFrom(line, i), TokensFrom(line, i);
        assert sp == [(i, e)] + sp' && ts == [line[i..e]] + ts';
        assert IsTokenSpan(line, ts[0], sp[0]);
        forall j | 1 <= j < |sp|
          ensures i <= sp[j].0 && IsTokenSpan(line, ts[j], sp[j])
        {
          assert sp[j] == sp'[j - 1] && ts[j] == ts'[j - 1];
        }
      }
    }
  }

  /** The token spans lie left to right without overlap, and a separator
      cuts each from the next. */
  lemma {:induction false} TokenSpansInOrder(line: string, i: nat)
    requires i <= |line|
    ensures SpansInOrder(line, SpansFrom(line, i))
    decreases |line| - i
  {
    if i < |line| {
      if IsSeparator(line, i) {
        TokenSpansInOrder(line, i + 1);
      } else {
        var e := RunEnd(line, i);
        TokenSpansInOrder(line, e);
        TokensAreSlices(line, e);
        var sp' := SpansFrom(line, e);
        forall j | 0 <= j < |sp'|
          ensures e < sp'[j].0
        {
          assert IsTokenSpan(line, TokensFrom(line, e)[j], sp'[j]);
          assert !IsSeparator(line, sp'[j].0);
        }
        SpansPrepend(line, (i, e), sp');
      }
    }
  }

  lemma SpansPrepend(line: string, s: (nat, nat), sp: seq<(nat, nat)>)
    requires SpansInOrder(line, sp)
    requires forall j :: 0 <= j < |sp| ==> s.1 < sp[j].0
    requires |sp| > 0 ==> sp[0].0 < |line| && s.1 < |line| && IsSeparator(line, s.1)
    ensures SpansInOrder(line, [s] + sp)
  {
    var sp2 := [s] + sp;
    forall j, k | 0 <= j < k < |sp2|
      ensures sp2[j].1 < sp2[k].0
    {
      if j > 0 {
        assert sp2[j] == sp[j - 1] && sp2[k] == sp[k - 1];
      }
    }
    forall j | 0 <= j < |sp2| - 1
      ensures sp2[j].1 < |line| && IsSeparator(line, sp2[j].1)
    {
      if j > 0 {
        assert sp2[j] == sp[j - 1];
      }
    }
  }

  /** A non-empty line without separators is one token: the whole line. */
  lemma NoSeparatorOneToken(line: string)
    requires |line| > 0
    requires forall k :: 0 <= k < |line| ==> !IsSeparator(line, k)
    ensures Tokens(line) == [line]
  {
    assert RunEnd(line, 0) == |line|;
    assert line[0..|line|] == line;
    assert TokensFrom(line, |line|) == [];
  }

  lemma {:induction false} QuoteFreeCount(s: string)
    requires '"' !in s
    ensures QuoteCount(s) == 0
  {
    if |s| > 0 {
      assert forall c :: c in s[..|s| - 1] ==> c in s;
      QuoteFreeCount(s[..|s| - 1]);
    }
  }

  /** A line that is empty or holds only spaces yields no token. */
  lemma {:induction false} BlankLineNoTokens(line: string, i: nat)
    requires i <= |line|
    requires forall k :: 0 <= k < |line| ==> line[k] == ' '
    ensures TokensFrom(line, i) == []
    decreases |line| - i
  {
    if i < |line| {
      assert forall c :: c in line[..i] ==> c == ' ';
      QuoteFreeCount(line[..i]);
      UnquotedParity(line, i);
      assert IsSeparator(line, i);
      BlankLineNoTokens(line, i + 1);
    }
  }

  /** A line that starts with '"' yields at least one token, the one that
      starts at that quote. */
  lemma QuotedLineHasToken(line: string)
    requires |line| > 0 && line[0] == '"'
    ensures |Tokens(line)| >= 1
    ensures Tokens(line)[0] == line[..RunEnd(line, 0)]
  {
    assert !IsSeparator(line, 0);
  }

  // ---------------------------------------------------------------------
  // Grouping

  /** `token.StartsWith("-")`. */
  predicate IsFlag(token: string)
  {
    |token| > 0 && token[0] == '-'
  }

  /** A group is a flag followed only by non-flags, or one non-flag alone. */
  predicate WellFormedGroup(g: seq<string>)
  {
    |g| > 0 &&
    (IsFlag(g[0]) ==> forall k :: 1 <= k < |g| ==> !IsFlag(g[k])) &&
    (!IsFlag(g[0]) ==> |g| == 1)
  }

  /** A flag group absorbs every non-flag token after it: the group after a
      flag group starts with a flag. */
  predicate FlagGroupsMaximal(gs: seq<seq<string>>)
  {
    |gs| <= 1 ||
    ((|gs[0]| > 0 && |gs[1]| > 0 && IsFlag(gs[0][0]) ==> IsFlag(gs[1][0])) &&
     FlagGroupsMaximal(gs[1..]))
  }

  /** The first flag at or after `i` (or the end). */
  function NextFlag(ts: seq<string>, i: nat): (e: nat)
    requires i <= |ts|
    ensures i <= e <= |ts|
    ensures e < |ts| ==> IsFlag(ts[e])
    ensures forall k :: i <= k < e ==> !IsFlag(ts[k])
    decreases |ts| - i
  {
    if i == |ts| || IsFlag(ts[i]) then i else NextFlag(ts, i + 1)
  }

  /** The groups of `ts[i..]`: a flag opens a group that runs to the next
      flag; a non-flag that follows no open group stands alone. */
  function GroupsFrom(ts: seq<string>, i: nat): (gs: seq<seq<string>>)
    requires i <= |ts|
    decreases |ts| - i
  {
    if i == |ts| then []
    else if IsFlag(ts[i]) then
      var e := NextFlag(ts, i + 1);
      [ts[i..e]] + GroupsFrom(ts, e)
    else [[ts[i]]] + GroupsFrom(ts, i + 1)
  }

  /** Every group is a flag with the non-flags after it, or one non-flag. */
  lemma {:induction false} GroupsWellFormed(ts: seq<string>, i: nat)
    requires i <= |ts|
    ensures forall g :: g in GroupsFrom(ts, i) ==> WellFormedGroup(g)
    decreases |ts| - i
  {
    if i < |ts| {
      var e := if IsFlag(ts[i]) then NextFlag(ts, i + 1) else i + 1;
      GroupsWellFormed(ts, e);
      GroupsStep(ts, i, e);
      assert WellFormedGroup(ts[i..e]) by {
        if IsFlag(ts[i]) {
          forall k | 1 <= k < e - i ensures !IsFlag(ts[i..e][k]) {
            assert ts[i..e][k] == ts[i + k];
          }
        }
      }
    }
  }

  function Groups(ts: seq<string>): seq<seq<string>>
  {
    GroupsFrom(ts, 0)
  }

  /** One step of grouping: a flag takes the tokens up to the next flag,
      any other token stands alone. */
  lemma GroupsStep(ts: seq<string>, i: nat, e: nat)
    requires i < |ts|
    requires e == if IsFlag(ts[i]) then NextFlag(ts, i + 1) else i + 1
    ensures i < e <= |ts|
    ensures GroupsFrom(ts, i) == [ts[i..e]] + GroupsFrom(ts, e)
  {
    if !IsFlag(ts[i]) {
      assert ts[i..e] == [ts[i]];
    }
  }

  lemma SeqAssoc<T>(a: seq<T>, b: seq<T>, c: seq<T>)
    ensures (a + b) + c == a + (b + c)
  {
  }

  lemma SliceExtend<T>(s: seq<T>, i: nat, j: nat)
    requires i <= j < |s|
    ensures s[i..j + 1] == s[i..j] + [s[j]]
  {
  }

  /** Emitting the group at `i` keeps the groups found so far, followed by
      the groups still to come, equal to all the groups. */
  lemma EmitGroup(groups: seq<seq<string>>, ts: seq<string>, i: nat, e: nat)
    requires i < |ts| && groups + GroupsFrom(ts, i) == Groups(ts)
    requires e == if IsFlag(ts[i]) then NextFlag(ts, i + 1) else i + 1
    ensures i < e <= |ts|
    ensures (groups + [ts[i..e]]) + GroupsFrom(ts, e) == Groups(ts)
  {
    GroupsStep(ts, i, e);
    SeqAssoc(groups, [ts[i..e]], GroupsFrom(ts, e));
  }

  /** A run with no flag up to `j` continues past a non-flag `j`. */
  lemma FlagRunContinues(ts: seq<string>, i: nat, j: nat)
    requires i <= j < |ts| && j <= NextFlag(ts, i) && !IsFlag(ts[j])
    ensures j + 1 <= NextFlag(ts, i)
  {
  }

  /** A run with no flag up to `j` ends at `j` when `j` is a flag or the end. */
  lemma FlagRunEnds(ts: seq<string>, i: nat, j: nat)
    requires i <= j <= |ts| && j <= NextFlag(ts, i) && (j == |ts| || IsFlag(ts[j]))
    ensures NextFlag(ts, i) == j
  {
  }

  /** The nested loops of `Parse` that group one line's tokens. */
  method GroupLine(lineSplit: seq<string>) returns (groups: seq<seq<string>>)
    ensures groups == Groups(lineSplit)
  {
    groups := [];
    var partIndex := 0;
    while partIndex < |lineSplit|
      invariant 0 <= partIndex <= |lineSplit|
      invariant groups + GroupsFrom(lineSplit, partIndex) == Groups(lineSplit)
    {
      if IsFlag(lineSplit[partIndex]) {
        var subparts := [lineSplit[partIndex]];
        var subpartIndex := partIndex + 1;
        while subpartIndex < |lineSplit|
          invariant partIndex < subpartIndex <= NextFlag(lineSplit, partIndex + 1)
          invariant subparts == lineSplit[partIndex..subpartIndex]
        {
          if IsFlag(lineSplit[subpartIndex]) {
            break;
          }
          FlagRunContinues(lineSplit, partIndex + 1, subpartIndex);
          SliceExtend(lineSplit, partIndex, subpartIndex);
          subparts := subparts + [lineSplit[subpartIndex]];
          subpartIndex := subpartIndex + 1;
        }
        FlagRunEnds(lineSplit, partIndex + 1, subpartIndex);
        EmitGroup(groups, lineSplit, partIndex, subpartIndex);
        partIndex := subpartIndex - 1;
        groups := groups + [subparts];
      } else {
        EmitGroup(groups, lineSplit, partIndex, partIndex + 1);
        assert lineSplit[partIndex..partIndex + 1] == [lineSplit[partIndex]];
        groups := groups + [[lineSplit[partIndex]]];
      }
      partIndex := partIndex + 1;
    }
  }

  /** Grouping is lossless: the groups, concatenated, are the tokens. */
  lemma {:induction false} GroupsLossless(ts: seq<string>, i: nat)
    requires i <= |ts|
    ensures Flatten(GroupsFrom(ts, i)) == ts[i..]
    decreases |ts| - i
  {
    if i < |ts| {
      var gs := GroupsFrom(ts, i);
      assert gs[1..] == GroupsFrom(ts, if IsFlag(ts[i]) then NextFlag(ts, i + 1) else i + 1);
      if IsFlag(ts[i]) {
        var e := NextFlag(ts, i + 1);
        GroupsLossless(ts, e);
        assert ts[i..] == ts[i..e] + ts[e..];
      } else {
        GroupsLossless(ts, i + 1);
        assert ts[i..] == [ts[i]] + ts[i + 1..];
      }
    }
  }

  /** A flag group always extends to the next flag. */
  lemma {:induction false} GroupsMaximal(ts: seq<string>, i: nat)
    requires i <= |ts|
    ensures FlagGroupsMaximal(GroupsFrom(ts, i))
    ensures |GroupsFrom(ts, i)| > 0 ==> GroupsFrom(ts, i)[0][0] == ts[i]
    decreases |ts| - i
  {
    if i < |ts| {
      var gs := GroupsFrom(ts, i);
      var e := if IsFlag(ts[i]) then NextFlag(ts, i + 1) else i + 1;
      var rest := GroupsFrom(ts, e);
      assert gs == [gs[0]] + rest;
      GroupsMaximal(ts, e);
      assert gs[1..] == rest;
    }
  }

  /** Grouping is the only split of the tokens into well-formed, maximal
      groups: any such split is the one `Groups` returns. */
  lemma {:induction false} GroupsUnique(ts: seq<string>, i: nat, gs: seq<seq<string>>)
    requires i <= |ts|
    requires forall g :: g in gs ==> WellFormedGroup(g)
    requires FlagGroupsMaximal(gs)
    requires Flatten(gs) == ts[i..]
    ensures gs == GroupsFrom(ts, i)
    decreases |gs|
  {
    if |gs| == 0 {
      assert |ts[i..]| == 0;
    } else {
      var g := gs[0];
      assert g in gs;
      assert Flatten(gs) == g + Flatten(gs[1..]);
      assert ts[i..][..|g|] == g;
      var e := i + |g|;
      assert Flatten(gs[1..]) == ts[e..];
      forall h | h in gs[1..] ensures WellFormedGroup(h) {
        assert h in gs;
      }
      if |gs| > 1 {
        assert gs[1] in gs;
        assert Flatten(gs[1..]) == gs[1] + Flatten(gs[2..]);
        assert ts[e] == gs[1][0];
      }
      if IsFlag(ts[i]) {
        assert ts[i] == g[0];
        forall k | i + 1 <= k < e ensures !IsFlag(ts[k]) {
          assert ts[k] == g[k - i];
        }
        assert NextFlag(ts, i + 1) == e;
      } else {
        assert ts[i] == g[0];
      }
      GroupsUnique(ts, e, gs[1..]);
      assert g == ts[i..e];
      assert gs == [g] + gs[1..];
      if !IsFlag(ts[i]) {
        assert |g| == 1 && g == [ts[i]] && e == i + 1;
      }
    }
  }

  // ---------------------------------------------------------------------
  // Classification

  /** `ToPath`: strips '"' from both ends, then resolves against the working
      path unless already rooted, and normalises. */
  function ToPath(host: Host, workingPath: string, v: string): string
  {
    var p := Trim(v, {'"'});
    if IsPathRooted(p) then host.getFullPath(p)
    else host.getFullPath(Combine(workingPath, p))
  }

  /** A value is resolved the same with or without one pair of surrounding
      quotes: an unquoted rooted value is normalised as it is, any other is
      first put below the working path. */
  lemma ToPathQuotes(host: Host, workingPath: string, v: string)
    requires |v| > 0 && v[0] != '"' && v[|v| - 1] != '"'
    ensures ToPath(host, workingPath, v) ==
            host.getFullPath(if IsPathRooted(v) then v else Combine(workingPath, v))
    ensures ToPath(host, workingPath, "\"" + v + "\"") == ToPath(host, workingPath, v)
  {
    var quoted := "\"" + v + "\"";
    TrimKeeps(v, {'"'}, 0, |v|);
    assert v[0..|v|] == v;
    TrimKeeps(quoted, {'"'}, 1, |v| + 1);
    assert quoted[1..|v| + 1] == v;
  }

  /** The flags `Parse` knows. */
  predicate IsKnownFlag(flag: string)
  {
    flag == "-a" || flag == "-reference" || flag == "-out" || flag == "-x" ||
    flag == "--link-attributes" || flag == "-d"
  }

  /** The `switch` on a group's first token. */
  function Classify(host: Host, workingPath: string, group: seq<string>): Result<Argument, ParseError>
    requires |group| > 0
  {
    var flag := group[0];
    if IsKnownFlag(flag) && |group| < 2 then Failure(MissingValue(flag))
    else if flag == "-a" then
      Success(Root(ToPath(host, workingPath, group[1]), if |group| > 2 then Some(group[2]) else None))
    else if flag == "-reference" then Success(Reference(ToPath(host, workingPath, group[1])))
    else if flag == "-out" then Success(Out(ToPath(host, workingPath, group[1])))
    else if flag == "-x" then Success(Descriptor(ToPath(host, workingPath, group[1])))
    else if flag == "--link-attributes" then Success(LinkAttributes(ToPath(host, workingPath, group[1])))
    else if flag == "-d" then Success(SearchDirectory(ToPath(host, workingPath, group[1])))
    else Success(UnknownArgument(Join(" ", group)))
  }

  /** The flag a known argument is written with. */
  function FlagOf(a: Argument): string
  {
    match a
    case Root(_, _) => "-a"
    case Reference(_) => "-reference"
    case Out(_) => "-out"
    case Descriptor(_) => "-x"
    case LinkAttributes(_) => "--link-attributes"
    case SearchDirectory(_) => "-d"
    case _ => ""
  }

  /** The path an argument carries (the raw text of an unknown one). */
  function PathOf(a: Argument): string
  {
    match a
    case UnknownArgument(v) => v
    case DotnetPathSection(p) => p
    case ILLinkPathSection(p) => p
    case Root(p, _) => p
    case Reference(p) => p
    case Out(p) => p
    case Descriptor(p) => p
    case LinkAttributes(p) => p
    case SearchDirectory(p) => p
  }

  /** Classification fails exactly for a known flag with no value. */
  lemma ClassifyFails(host: Host, workingPath: string, group: seq<string>)
    requires |group| > 0
    ensures Classify(host, workingPath, group).Failure? <==> IsKnownFlag(group[0]) && |group| == 1
    ensures Classify(host, workingPath, group).Failure? ==> Classify(host, workingPath, group).error == MissingValue(group[0])
  {
  }

  /** A known argument renders as its flag, a space and its path; a `Root`
      adds a space and its mode, or nothing after that space when it has
      no mode. An unknown argument renders as its text. */
  lemma Rendering(a: Argument)
    ensures FlagOf(a) != "" ==>
              a.ToString() == FlagOf(a) + " " + PathOf(a) +
                (if a.Root? then " " + (if a.mode.Some? then a.mode.value else "") else "")
    ensures a.UnknownArgument? ==> a.ToString() == a.value
  {
  }

  /** A known flag with a value picks its record by the flag, resolves the
      second token to the record's path, gives `-a` the optional third
      token as its mode and drops any further token; the record renders as
      the flag, a space and the path (and, for `-a`, a space and the mode). */
  lemma ClassifyKnown(host: Host, workingPath: string, group: seq<string>)
    requires |group| >= 2 && IsKnownFlag(group[0])
    ensures var a := Classify(host, workingPath, group).value;
      Classify(host, workingPath, group).Success? &&
      FlagOf(a) == group[0] && PathOf(a) == ToPath(host, workingPath, group[1]) &&
      (a.Root? ==> a.mode == if |group| > 2 then Some(group[2]) else None) &&
      a.ToString() == group[0] + " " + ToPath(host, workingPath, group[1]) +
        (if a.Root? then " " + (if |group| > 2 then group[2] else "") else "")
  {
    var flag, path := group[0], ToPath(host, workingPath, group[1]);
    Rendering(Classify(host, workingPath, group).value);
    if flag == "-a" {
      assert Classify(host, workingPath, group) == Success(Root(path, if |group| > 2 then Some(group[2]) else None));
    } else if flag == "-reference" {
      assert Classify(host, workingPath, group) == Success(Reference(path));
    } else if flag == "-out" {
      assert Classify(host, workingPath, group) == Success(Out(path));
    } else if flag == "-x" {
      assert Classify(host, workingPath, group) == Success(Descriptor(path));
    } else if flag == "--link-attributes" {
      assert Classify(host, workingPath, group) == Success(LinkAttributes(path));
    } else {
      assert Classify(host, workingPath, group) == Success(SearchDirectory(path));
    }
  }

  /** Any other group becomes an unknown argument that renders back as the
      group's tokens joined by single spaces. */
  lemma ClassifyUnknown(host: Host, workingPath: string, group: seq<string>)
    requires |group| > 0 && !IsKnownFlag(group[0])
    ensures Classify(host, workingPath, group) == Success(UnknownArgument(Join(" ", group)))
    ensures Classify(host, workingPath, group).value.ToString() == Join(" ", group)
  {
  }

  /** Classification of every group in order; the first failing group
      aborts it (the exception ends the enumeration). */
  function ClassifyAll(host: Host, workingPath: string, groups: seq<seq<string>>): (r: Result<seq<Argument>, ParseError>)
    requires forall g :: g in groups ==> |g| > 0
    ensures r.Success? <==> forall j :: 0 <= j < |groups| ==> Classify(host, workingPath, groups[j]).Success?
    ensures r.Success? ==>
              |r.value| == |groups| &&
              (forall j :: 0 <= j < |groups| ==> Classify(host, workingPath, groups[j]) == Success(r.value[j]))
    ensures r.Failure? ==>
              exists j :: 0 <= j < |groups| && Classify(host, workingPath, groups[j]) == Failure(r.error) &&
                          (forall k :: 0 <= k < j ==> Classify(host, workingPath, groups[k]).Success?)
  {
    if |groups| == 0 then Success([])
    else
      assert groups[0] in groups;
      assert forall g :: g in groups[1..] ==> g in groups;
      match Classify(host, workingPath, groups[0])
      case Failure(e) => Failure(e)
      case Success(a) =>
        match ClassifyAll(host, workingPath, groups[1..])
        case Failure(e) =>
          assert forall j :: 1 <= j < |groups| ==> groups[1..][j - 1] == groups[j];
          Failure(e)
        case Success(rest) =>
          assert forall j :: 1 <= j < |groups| ==> groups[1..][j - 1] == groups[j];
          Success([a] + rest)
  }

  // ---------------------------------------------------------------------
  // Parse

  predicate IsLineBreak(c: char)
  {
    c == '\n' || c == '\r'
  }

  /** `commandLine.Split(new[] { '\n', '\r' })`: always at least one line,
      none holding a line break. */
  function SplitLines(text: string): (lines: seq<string>)
    ensures |lines| >= 1
    ensures forall j, k :: 0 <= j < |lines| && 0 <= k < |lines[j]| ==> !IsLineBreak(lines[j][k])
  {
    if |text| == 0 then [""]
    else
      var rest := SplitLines(text[1..]);
      if IsLineBreak(text[0]) then [""] + rest
      else
        assert forall j :: 1 <= j < |rest| ==> rest[1..][j - 1] == rest[j];
        [[text[0]] + rest[0]] + rest[1..]
  }

  /** Where the first line of `text` ends: its first line break, or the
      end of the text. */
  function LineEnd(text: string): (k: nat)
    ensures k <= |text| && (k < |text| ==> IsLineBreak(text[k]))
    ensures forall j :: 0 <= j < k ==> !IsLineBreak(text[j])
  {
    if |text| == 0 || IsLineBreak(text[0]) then 0
    else
      var k := LineEnd(text[1..]);
      assert forall j :: 1 <= j < k + 1 ==> text[j] == text[1..][j - 1];
      k + 1
  }

  /** The first line is the text up to its first line break, and the
      others are the rest of the text after that break, split alike; a text
      without a line break is a single line. */
  lemma {:induction false} SplitLinesFirst(text: string)
    ensures LineEnd(text) == |text| ==> SplitLines(text) == [text]
    ensures LineEnd(text) < |text| ==>
              SplitLines(text) == [text[..LineEnd(text)]] + SplitLines(text[LineEnd(text) + 1..])
    decreases |text|
  {
    if |text| > 0 && !IsLineBreak(text[0]) {
      var tail := text[1..];
      SplitLinesFirst(tail);
      var k := LineEnd(tail);
      if k < |tail| {
        assert [text[0]] + tail[..k] == text[..k + 1];
        assert tail[k + 1..] == text[k + 2..];
      } else {
        assert [text[0]] + tail == text;
      }
    }
  }

  /** The command line's lines, each trimmed of line breaks. */
  function ReadLines(text: string): (lines: seq<string>)
    ensures |lines| >= 1
  {
    var raw := SplitLines(text);
    seq(|raw|, k requires 0 <= k < |raw| => Trim(raw[k], {'\n', '\r'}))
  }

  /** Trimming the split lines of line breaks changes none of them: the
      split leaves no line break to trim. */
  lemma ReadLinesUntrimmed(text: string)
    ensures ReadLines(text) == SplitLines(text)
  {
    var raw := SplitLines(text);
    forall k | 0 <= k < |raw|
      ensures Trim(raw[k], {'\n', '\r'}) == raw[k]
    {
      var line := raw[k];
      if |line| > 0 {
        TrimKeeps(line, {'\n', '\r'}, 0, |line|);
        assert line[0..|line|] == line;
      }
    }
  }

  /** The groups of several lines: each line is tokenized and grouped on
      its own, and the groups are appended in line order. */
  function LineGroups(lines: seq<string>): (gs: seq<seq<string>>)
    ensures forall g :: g in gs ==> WellFormedGroup(g)
  {
    if |lines| == 0 then []
    else
      var ts := Tokens(lines[|lines| - 1]);
      GroupsWellFormed(ts, 0);
      LineGroups(lines[..|lines| - 1]) + Groups(ts)
  }

  /** The tokens of several lines, in line order. */
  function LineTokens(lines: seq<string>): seq<string>
  {
    Flatten(seq(|lines|, j requires 0 <= j < |lines| => Tokens(lines[j])))
  }

  /** Grouping line by line loses and adds nothing: the groups of all lines
      together are the tokens of all lines. */
  lemma {:induction false} LineGroupsLossless(lines: seq<string>)
    ensures Flatten(LineGroups(lines)) == LineTokens(lines)
  {
    if |lines| > 0 {
      var init, last := lines[..|lines| - 1], lines[|lines| - 1];
      LineGroupsLossless(init);
      FlattenAppend(LineGroups(init), Groups(Tokens(last)));
      GroupsLossless(Tokens(last), 0);
      var perLine := seq(|lines|, j requires 0 <= j < |lines| => Tokens(lines[j]));
      var perInit := seq(|init|, j requires 0 <= j < |init| => Tokens(init[j]));
      assert perLine == perInit + [Tokens(last)];
      FlattenAppend(perInit, [Tokens(last)]);
      assert Flatten([Tokens(last)]) == Tokens(last) + Flatten([Tokens(last)][1..]);
    }
  }

  /** No group spans lines: the groups of several lines are exactly each
      line's own groups, in line order. */
  lemma {:induction false} LineGroupsPerLine(lines: seq<string>)
    ensures LineGroups(lines) == Flatten(seq(|lines|, j requires 0 <= j < |lines| => Groups(Tokens(lines[j]))))
  {
    if |lines| > 0 {
      var init, last := lines[..|lines| - 1], lines[|lines| - 1];
      LineGroupsPerLine(init);
      var perLine := seq(|lines|, j requires 0 <= j < |lines| => Groups(Tokens(lines[j])));
      var perInit := seq(|init|, j requires 0 <= j < |init| => Groups(Tokens(init[j])));
      assert perLine == perInit + [Groups(Tokens(last))];
      FlattenAppend(perInit, [Groups(Tokens(last))]);
      assert Flatten([Groups(Tokens(last))]) == Groups(Tokens(last)) + Flatten([Groups(Tokens(last))][1..]);
    }
  }

  /** The first line with the tool path taken off: its remaining tokens,
      joined by single spaces. */
  function RestOfFirstLine(firstLineSplit: seq<string>): string
    requires |firstLineSplit| >= 1
  {
    Join(" ", firstLineSplit[1..])
  }

  /** What `new ILLink(workingPath, commandLine)` computes, or the
      exception it throws. */
  function ParseSpec(host: Host, workingPath: string, commandLine: string): Result<Invocation, ParseError>
  {
    ParseLines(host, workingPath, ReadLines(commandLine))
  }

  /** `ParseSpec` once the command line is cut into lines. */
  function ParseLines(host: Host, workingPath: string, lines: seq<string>): Result<Invocation, ParseError>
    requires |lines| >= 1
  {
    var firstLine := lines[0];
    var firstQuote := IndexOf(firstLine, '"');
    if firstQuote < 0 then Failure(NoQuoteInFirstLine)
    else
      var firstLineSplit := Tokens(firstLine[firstQuote..]);
      if |firstLineSplit| < 1 then Failure(NoToolPath)
      else
        var groups := LineGroups(lines[0 := RestOfFirstLine(firstLineSplit)]);
        match ClassifyAll(host, workingPath, groups)
        case Failure(e) => Failure(e)
        case Success(arguments) =>
          Success(Invocation(Trim(firstLine[..firstQuote], {' '}),
                             ToPath(host, workingPath, firstLineSplit[0]),
                             arguments))
  }

  /** The `ILLink` constructor with `Parse`: the launcher path is what
      precedes the first quote, the tool path is the first token from that
      quote on, the rest of the first line is put back as line 0, every line
      is tokenized and grouped, and every group is classified. */
  method Parse(host: Host, workingPath: string, commandLine: string) returns (r: Result<Invocation, ParseError>)
    ensures r == ParseSpec(host, workingPath, commandLine)
  {
    var lines := ReadLines(commandLine);
    var firstLine := lines[0];
    var firstQuote := IndexOf(firstLine, '"');
    if firstQuote < 0 {
      return Failure(NoQuoteInFirstLine);
    }
    var dotnetPath := Trim(firstLine[..firstQuote], {' '});
    var firstLineSplit := SplitLine(firstLine[firstQuote..]);
    if |firstLineSplit| < 1 {
      return Failure(NoToolPath);
    }
    var illinkPath := ToPath(host, workingPath, firstLineSplit[0]);
    lines := lines[0 := RestOfFirstLine(firstLineSplit)];

    var splitLines := GroupLines(lines);
    var classified := ClassifyGroups(host, workingPath, splitLines);
    if classified.Failure? {
      return Failure(classified.error);
    }
    r := Success(Invocation(dotnetPath, illinkPath, classified.value));
  }

  /** The `foreach (var line in lines)` loop of `Parse`. */
  method GroupLines(lines: seq<string>) returns (splitLines: seq<seq<string>>)
    ensures splitLines == LineGroups(lines)
  {
    splitLines := [];
    for n := 0 to |lines|
      invariant splitLines == LineGroups(lines[..n])
    {
      assert lines[..n + 1][..n] == lines[..n];
      var lineSplit := SplitLine(lines[n]);
      if |lineSplit| == 0 {
        continue;
      }
      var groups := GroupLine(lineSplit);
      splitLines := splitLines + groups;
    }
    assert lines[..|lines|] == lines;
  }

  /** The `foreach (var lineParts in splitLines)` loop of `Parse`. */
  method ClassifyGroups(host: Host, workingPath: string, splitLines: seq<seq<string>>)
    returns (r: Result<seq<Argument>, ParseError>)
    requires forall g :: g in splitLines ==> |g| > 0
    ensures r == ClassifyAll(host, workingPath, splitLines)
  {
    var arguments: seq<Argument> := [];
    for k := 0 to |splitLines|
      invariant |arguments| == k
      invariant forall j :: 0 <= j < k ==> Classify(host, workingPath, splitLines[j]) == Success(arguments[j])
    {
      assert splitLines[k] in splitLines;
      var c := Classify(host, workingPath, splitLines[k]);
      if c.Failure? {
        return Failure(c.error);
      }
      arguments := arguments + [c.value];
    }
    var all := ClassifyAll(host, workingPath, splitLines);
    assert all.Success?;
    assert forall j :: 0 <= j < |splitLines| ==> all.value[j] == arguments[j];
    assert all.value == arguments;
    return Success(arguments);
  }

  // ---------------------------------------------------------------------
  // Re-tokenizing the rewritten first line

  lemma {:induction false} QuoteCountAppend(a: string, b: string)
    ensures QuoteCount(a + b) == QuoteCount(a) + QuoteCount(b)
    decreases |b|
  {
    if |b| == 0 {
      assert a + b == a;
    } else {
      assert (a + b)[..|a + b| - 1] == a + b[..|b| - 1];
      QuoteCountAppend(a, b[..|b| - 1]);
    }
  }

  /** A prefix with an even number of quotes leaves the parity unchanged. */
  lemma EvenPrefixParity(a: string, b: string)
    requires QuoteCount(a) % 2 == 0
    ensures QuoteCount(a + b) % 2 == QuoteCount(b) % 2
  {
    QuoteCountAppend(a, b);
    var n := QuoteCount(b);
    assert QuoteCount(a + b) == QuoteCount(a) + n;
  }

  /** After a prefix with an even number of quotes, a position separates
      exactly when it does in the string read on its own. */
  lemma SeparatorShift(a: string, b: string, k: nat)
    requires QuoteCount(a) % 2 == 0 && k < |b|
    ensures IsSeparator(a + b, |a| + k) == IsSeparator(b, k)
  {
    UnquotedParity(a + b, |a| + k);
    UnquotedParity(b, k);
    assert (a + b)[..|a| + k] == a + b[..k];
    EvenPrefixParity(a, b[..k]);
  }

  /** After such a prefix, the first separator lies where it does in the
      string read on its own. */
  lemma {:induction false} RunEndShift(a: string, b: string, k: nat)
    requires QuoteCount(a) % 2 == 0 && k <= |b|
    ensures RunEnd(a + b, |a| + k) == |a| + RunEnd(b, k)
    decreases |b| - k
  {
    if k < |b| {
      SeparatorShift(a, b, k);
      if !IsSeparator(b, k) {
        RunEndShift(a, b, k + 1);
      }
    }
  }

  /** After such a prefix, the tokens are those of the string read on its own. */
  lemma {:induction false} TokensShift(a: string, b: string, k: nat)
    requires QuoteCount(a) % 2 == 0 && k <= |b|
    ensures TokensFrom(a + b, |a| + k) == TokensFrom(b, k)
    decreases |b| - k
  {
    if k == |b| {
      assert |a| + k == |a + b|;
    } else if IsSeparator(b, k) {
      TokensShift(a, b, k + 1);
      SkipShift(a, b, k);
    } else {
      var e := RunEnd(b, k);
      TokensShift(a, b, e);
      RunShift(a, b, k);
    }
  }

  /** A separator at `k` is skipped on both sides alike. */
  lemma SkipShift(a: string, b: string, k: nat)
    requires QuoteCount(a) % 2 == 0 && k < |b| && IsSeparator(b, k)
    requires TokensFrom(a + b, |a| + k + 1) == TokensFrom(b, k + 1)
    ensures TokensFrom(a + b, |a| + k) == TokensFrom(b, k)
  {
    SeparatorShift(a, b, k);
  }

  /** A token starting at `k` is the same run on both sides. */
  lemma RunShift(a: string, b: string, k: nat)
    requires QuoteCount(a) % 2 == 0 && k < |b| && !IsSeparator(b, k)
    requires TokensFrom(a + b, |a| + RunEnd(b, k)) == TokensFrom(b, RunEnd(b, k))
    ensures TokensFrom(a + b, |a| + k) == TokensFrom(b, k)
  {
    var ab, e := a + b, RunEnd(b, k);
    SeparatorShift(a, b, k);
    RunEndShift(a, b, k);
    assert ab[|a| + k..|a| + e] == b[k..e];
    assert TokensFrom(ab, |a| + k) == [b[k..e]] + TokensFrom(ab, |a| + e);
  }

  /** Words that split back into themselves once joined by single spaces:
      each is non-empty and has no separator of its own, and every word but
      the last holds an even number of quotes. */
  ghost predicate Resplittable(ws: seq<string>)
  {
    (forall j :: 0 <= j < |ws| ==> |ws[j]| > 0 && forall k :: 0 <= k < |ws[j]| ==> !IsSeparator(ws[j], k)) &&
    (forall j :: 0 <= j < |ws| - 1 ==> QuoteCount(ws[j]) % 2 == 0)
  }

  /** Joining such words by single spaces and tokenizing gives them back. */
  lemma {:induction false} JoinResplits(ws: seq<string>)
    requires Resplittable(ws)
    ensures Tokens(Join(" ", ws)) == ws
    decreases |ws|
  {
    if |ws| == 0 {
    } else if |ws| == 1 {
      NoSeparatorOneToken(ws[0]);
    } else {
      var w, rest := ws[0], ws[1..];
      assert Resplittable(rest) by {
        assert forall j :: 0 <= j < |rest| ==> rest[j] == ws[j + 1];
      }
      JoinResplits(rest);
      var r := Join(" ", rest);
      assert Join(" ", ws) == w + " " + r;
      FirstWordCut(w, r);
      QuoteCountAppend(w, " ");
      assert QuoteCount(" ") == 0 by {
        assert " "[..0] == [];
      }
      TokensShift(w + " ", r, 0);
      assert ws == [w] + rest;
    }
  }

  /** A word with no separator of its own, followed by a space, is the
      first token, and the tokens after it start past the space. */
  lemma FirstWordCut(w: string, r: string)
    requires |w| > 0 && forall k :: 0 <= k < |w| ==> !IsSeparator(w, k)
    requires QuoteCount(w) % 2 == 0
    ensures Tokens(w + " " + r) == [w] + TokensFrom(w + " " + r, |w| + 1)
  {
    var line := w + " " + r;
    forall p | 0 <= p < |w|
      ensures !IsSeparator(line, p)
    {
      UnquotedParity(line, p);
      UnquotedParity(w, p);
      assert line[..p] == w[..p];
      assert !IsSeparator(w, p);
    }
    UnquotedParity(line, |w|);
    assert line[..|w|] == w;
    assert IsSeparator(line, |w|);
    assert RunEnd(line, 0) == |w|;
    assert line[0..|w|] == w;
    assert TokensFrom(line, |w|) == TokensFrom(line, |w| + 1);
  }

  /** The tokens of a line, read from a point preceded by an even number
      of quotes, are words that split back into themselves. */
  lemma {:induction false} TokensResplittable(s: string, i: nat)
    requires i <= |s| && Unquoted(s, i)
    ensures Resplittable(TokensFrom(s, i))
    decreases |s| - i
  {
    if i < |s| {
      if IsSeparator(s, i) {
        TokensResplittable(s, i + 1);
      } else {
        var e := RunEnd(s, i);
        TokenPlain(s, i);
        if e < |s| {
          TokensResplittable(s, e);
        }
        var t, rest, ts := s[i..e], TokensFrom(s, e), TokensFrom(s, i);
        assert ts == [t] + rest;
        assert forall j :: 1 <= j < |ts| ==> ts[j] == rest[j - 1];
      }
    }
  }

  /** A token starting at an unquoted position has no separator of its
      own, and when a separator ends it, it holds an even number of quotes. */
  lemma TokenPlain(s: string, i: nat)
    requires i < |s| && Unquoted(s, i) && !IsSeparator(s, i)
    ensures var t := s[i..RunEnd(s, i)];
            |t| > 0 && (forall k :: 0 <= k < |t| ==> !IsSeparator(t, k)) &&
            (RunEnd(s, i) < |s| ==> QuoteCount(t) % 2 == 0)
  {
    var e := RunEnd(s, i);
    var t := s[i..e];
    UnquotedParity(s, i);
    forall k | 0 <= k < |t|
      ensures !IsSeparator(t, k)
    {
      SlicePositionPlain(s, i, t, k);
    }
    if e < |s| {
      UnquotedParity(s, e);
      assert s[..e] == s[..i] + t;
      EvenPrefixParity(s[..i], t);
    }
  }

  /** A position of a slice that starts after an even number of quotes is
      quoted in the slice as it is in the line, so it is a separator in the
      one exactly when it is in the other. */
  lemma SlicePositionPlain(s: string, i: nat, t: string, k: nat)
    requires i + |t| <= |s| && t == s[i..i + |t|] && QuoteCount(s[..i]) % 2 == 0
    requires k < |t| && !IsSeparator(s, i + k)
    ensures !IsSeparator(t, k)
  {
    UnquotedParity(s, i + k);
    UnquotedParity(t, k);
    assert s[..i + k] == s[..i] + t[..k];
    EvenPrefixParity(s[..i], t[..k]);
    assert t[k] == s[i + k];
  }

  /** Putting the first line's remaining tokens back as line 0, joined by
      single spaces, loses and changes none of them: tokenizing it again
      yields exactly those tokens. */
  lemma FirstLineResplits(line: string)
    requires |Tokens(line)| >= 1
    ensures Tokens(RestOfFirstLine(Tokens(line))) == Tokens(line)[1..]
  {
    TokensResplittable(line, 0);
    var ts := Tokens(line);
    assert Resplittable(ts[1..]) by {
      assert forall j :: 0 <= j < |ts| - 1 ==> ts[1..][j] == ts[j + 1];
    }
    JoinResplits(ts[1..]);
  }

  /** `Parse` rejects a command line for want of a quote exactly when its
      first line has none, and never for want of a tool path: from a quote
      on there is always a token. */
  lemma ParseNeedsQuote(host: Host, workingPath: string, lines: seq<string>)
    requires |lines| >= 1
    ensures ParseLines(host, workingPath, lines) == Failure(NoQuoteInFirstLine) <==> IndexOf(lines[0], '"') < 0
    ensures ParseLines(host, workingPath, lines) != Failure(NoToolPath)
  {
    var q := IndexOf(lines[0], '"');
    if q >= 0 {
      QuotedLineHasToken(lines[0][q..]);
      var split := Tokens(lines[0][q..]);
      var groups := LineGroups(lines[0 := RestOfFirstLine(split)]);
      var r := ClassifyAll(host, workingPath, groups);
      if r.Failure? {
        var j :| 0 <= j < |groups| && Classify(host, workingPath, groups[j]) == Failure(r.error);
        assert groups[j] in groups;
        ClassifyFails(host, workingPath, groups[j]);
      }
    }
  }

  /** The groups `Parse` classifies hold exactly the first line's tokens
      after the tool path, followed by every other line's tokens in order. */
  lemma RewrittenLinesTokens(lines: seq<string>, first: string)
    requires |lines| > 0 && |Tokens(first)| >= 1
    ensures var split := Tokens(first);
      Flatten(LineGroups(lines[0 := RestOfFirstLine(split)])) == split[1..] + LineTokens(lines[1..])
  {
    var split := Tokens(first);
    FirstLineResplits(first);
    var lines' := lines[0 := RestOfFirstLine(split)];
    LineGroupsLossless(lines');
    var perLine := seq(|lines'|, j requires 0 <= j < |lines'| => Tokens(lines'[j]));
    var perRest := seq(|lines| - 1, j requires 0 <= j < |lines| - 1 => Tokens(lines[1..][j]));
    assert perLine == [split[1..]] + perRest;
  }

  /** Classifying groups succeeds exactly when none of them is a known
      flag left without its value. */
  lemma ClassifyAllSucceeds(host: Host, workingPath: string, groups: seq<seq<string>>)
    requires forall g :: g in groups ==> |g| > 0
    ensures ClassifyAll(host, workingPath, groups).Success? <==>
            forall g :: g in groups ==> !(IsKnownFlag(g[0]) && |g| == 1)
  {
    forall g | g in groups
      ensures Classify(host, workingPath, g).Success? <==> !(IsKnownFlag(g[0]) && |g| == 1)
    {
      ClassifyFails(host, workingPath, g);
    }
    if !forall g :: g in groups ==> !(IsKnownFlag(g[0]) && |g| == 1) {
      var g :| g in groups && IsKnownFlag(g[0]) && |g| == 1;
      var j :| 0 <= j < |groups| && groups[j] == g;
      assert Classify(host, workingPath, groups[j]).Failure?;
    } else {
      assert forall j :: 0 <= j < |groups| ==> groups[j] in groups;
    }
  }

  /** Once the first line has a quote, `Parse` succeeds exactly when no
      group is a known flag without its value, and then yields the
      launcher path (the text before the quote, trimmed of spaces), the
      resolved tool path (the first token from the quote on) and one
      argument per group, in order, each the group's classification. */
  lemma ParseSucceeds(host: Host, workingPath: string, lines: seq<string>,
                      q: int, split: seq<string>, groups: seq<seq<string>>)
    requires |lines| >= 1 && q == IndexOf(lines[0], '"') && q >= 0
    requires split == Tokens(lines[0][q..]) && groups == LineGroups(lines[0 := RestOfFirstLine(split)])
    ensures |split| >= 1
    ensures ParseLines(host, workingPath, lines).Success? <==>
            forall g :: g in groups ==> !(IsKnownFlag(g[0]) && |g| == 1)
    ensures ParseLines(host, workingPath, lines).Success? ==>
              ParseLines(host, workingPath, lines).value.dotnetPath == Trim(lines[0][..q], {' '}) &&
              ParseLines(host, workingPath, lines).value.illinkPath == ToPath(host, workingPath, split[0])
    ensures ParseLines(host, workingPath, lines).Success? ==>
              var arguments := ParseLines(host, workingPath, lines).value.arguments;
              |arguments| == |groups| &&
              forall j :: 0 <= j < |groups| ==>
                |groups[j]| > 0 && Classify(host, workingPath, groups[j]) == Success(arguments[j])
  {
    QuotedLineHasToken(lines[0][q..]);
    ClassifyAllSucceeds(host, workingPath, groups);
    assert forall j :: 0 <= j < |groups| ==> groups[j] in groups;
  }
}
