/**
 * The terminal-return rewrite engine of src/ast-patch.ts.
 *
 * `Find`, `Peek`, `Delimited` and `FindFinalReturn` drive a `Scanner` the
 * way the source drives the host's scanner; each is proved against a
 * specification function over the token sequence (`ScanUntil`, `Ahead`,
 * `MatchFrom`, `ScanBody`, `FinalReturn`), whose meaning is proved in the
 * lemmas below. `VirtualModule`, `ReplaceFinalReturn` and `ReplaceLast`
 * are the pure string splices built on top.
 */
module AstPatch {
  import opened Wrappers
  import opened JsString
  import opened Scanning

  /** `ts.TextSpan` */
  datatype Span = Span(start: nat, length: int)

  /* ---------------------------------------------------------------------
   * Specification functions over token sequences
   * --------------------------------------------------------------------- */

  /**
   * Where a loop that scans at least once and stops on a token of kind `a`
   * or `b`, or on the end of file, comes to rest, starting from cursor `c`.
   */
  function ScanUntil(toks: seq<Token>, c: int, a: Kind, b: Kind): (r: int)
    requires Terminated(toks) && -1 <= c < |toks|
    decreases |toks| - c
    ensures Next(toks, c) <= r < |toks|
    ensures toks[r].kind == a || toks[r].kind == b || r == |toks| - 1
  {
    var n := Next(toks, c);
    var k := toks[n].kind;
    assert n < |toks| - 1 ==> Inner(toks, n);
    if k == a || k == b || k == EndOfFile then n
    else ScanUntil(toks, n, a, b)
  }

  /** The scan passes over no token of kind `a` or `b` on its way. */
  lemma {:induction false} ScanUntilSkips(toks: seq<Token>, c: int, a: Kind, b: Kind)
    requires Terminated(toks) && -1 <= c < |toks|
    decreases |toks| - c
    ensures forall j :: c < j < ScanUntil(toks, c, a, b) ==> toks[j].kind != a && toks[j].kind != b
  {
    var n := Next(toks, c);
    var k := toks[n].kind;
    if !(k == a || k == b || k == EndOfFile) {
      ScanUntilSkips(toks, n, a, b);
    }
  }

  /** The cursor after `n` scans from `c`. */
  function Ahead(toks: seq<Token>, c: int, n: nat): (r: int)
    requires -1 <= c < |toks|
    decreases n
    ensures r == if c + n < |toks| then c + n else |toks| - 1
  {
    if n == 0 then c else Ahead(toks, Next(toks, c), n - 1)
  }

  /** How a token moves the nesting depth of a `left`/`right` pair; `left` is tested first. */
  function Delta(k: Kind, left: Kind, right: Kind): int {
    if k == left then 1 else if k == right then -1 else 0
  }

  /** The net change of nesting depth over the tokens strictly between indices `c` and `hi`. */
  function Net(toks: seq<Token>, c: int, hi: int, left: Kind, right: Kind): int
    requires -1 <= c && hi <= |toks|
    decreases hi - c
  {
    if c + 1 >= hi then 0 else Delta(toks[c + 1].kind, left, right) + Net(toks, c + 1, hi, left, right)
  }

  lemma {:induction false} NetSplit(toks: seq<Token>, c: int, m: int, hi: int, left: Kind, right: Kind)
    requires -1 <= c <= m < hi <= |toks|
    decreases m - c
    ensures Net(toks, c, hi, left, right) == Net(toks, c, m + 1, left, right) + Net(toks, m, hi, left, right)
  {
    if c < m {
      NetSplit(toks, c + 1, m, hi, left, right);
    }
  }

  /** A stretch holding neither `left` nor `right` leaves the depth alone. */
  lemma {:induction false} NetQuiet(toks: seq<Token>, c: int, hi: int, left: Kind, right: Kind)
    requires -1 <= c < hi <= |toks|
    requires forall j :: c < j < hi ==> toks[j].kind != left && toks[j].kind != right
    decreases hi - c
    ensures Net(toks, c, hi, left, right) == 0
  {
    if c + 1 < hi {
      NetQuiet(toks, c + 1, hi, left, right);
    }
  }

  /**
   * The depth-counting matcher of `delimited`: from cursor `c` at nesting
   * `depth`, jump to the next `left`, `right` or end of file, adjust the
   * depth, and stop on the `right` that brings it to zero (`None` when the
   * end of file comes first).
   */
  function MatchFrom(toks: seq<Token>, c: int, depth: nat, left: Kind, right: Kind): (r: Option<nat>)
    requires Terminated(toks) && -1 <= c < |toks| && depth >= 1
    requires left != EndOfFile && right != EndOfFile
    decreases |toks| - c
    ensures r.Some? ==> c < r.value < |toks| - 1 && toks[r.value].kind == right
  {
    var t := ScanUntil(toks, c, left, right);
    var k := toks[t].kind;
    if k == EndOfFile then None
    else
      var d := depth + Delta(k, left, right);
      if d == 0 then Some(t) else MatchFrom(toks, t, d, left, right)
  }

  /**
   * `MatchFrom` is the first token after `c` at which the running depth
   * reaches zero, and it is `None` exactly when the depth stays positive up
   * to the end of file.
   */
  lemma {:induction false} MatchFromDepth(toks: seq<Token>, c: int, depth: nat, left: Kind, right: Kind)
    requires Terminated(toks) && -1 <= c < |toks| && depth >= 1
    requires left != EndOfFile && right != EndOfFile
    decreases |toks| - c
    ensures match MatchFrom(toks, c, depth, left, right)
            case Some(j) =>
              && depth + Net(toks, c, j + 1, left, right) == 0
              && forall e :: c + 1 < e <= j ==> depth + Net(toks, c, e, left, right) > 0
            case None =>
              forall e :: c + 1 < e < |toks| ==> depth + Net(toks, c, e, left, right) > 0
  {
    var t := ScanUntil(toks, c, left, right);
    var k := toks[t].kind;
    MatchStep(toks, c, depth, left, right);
    StopNet(toks, c, left, right);
    if k == EndOfFile {
      assert MatchFrom(toks, c, depth, left, right) == None;
    } else {
      var d := depth + Delta(k, left, right);
      if d == 0 {
        assert MatchFrom(toks, c, depth, left, right) == Some(t);
      } else {
        assert MatchFrom(toks, c, depth, left, right) == MatchFrom(toks, t, d, left, right);
        MatchFromDepth(toks, t, d, left, right);
        match MatchFrom(toks, t, d, left, right)
        case Some(j) =>
          DepthAcrossStop(toks, c, t, j + 1, depth, d, left, right);
        case None =>
          DepthAcrossStop(toks, c, t, |toks|, depth, d, left, right);
      }
    }
  }

  /**
   * The depth does not move up to where the scan stops; a stop on a
   * delimiter moves it by that delimiter, and a stop on the end of file is
   * at the last token.
   */
  lemma StopNet(toks: seq<Token>, c: int, left: Kind, right: Kind)
    requires Terminated(toks) && -1 <= c < |toks|
    ensures var t := ScanUntil(toks, c, left, right);
            && (forall e :: c < e <= t ==> Net(toks, c, e, left, right) == 0)
            && (toks[t].kind != EndOfFile ==> c < t && Net(toks, c, t + 1, left, right) == Delta(toks[t].kind, left, right))
            && (toks[t].kind == EndOfFile ==> t == |toks| - 1)
  {
    var t := ScanUntil(toks, c, left, right);
    ScanUntilSkips(toks, c, left, right);
    forall e | c < e <= t
      ensures Net(toks, c, e, left, right) == 0
    {
      NetQuiet(toks, c, e, left, right);
    }
    assert t < |toks| - 1 ==> Inner(toks, t);
    if toks[t].kind != EndOfFile {
      NetSplit(toks, c, t - 1, t + 1, left, right);
    }
  }

  /**
   * The running depth from `c`, when nothing moves it before `t` and it is
   * `d > 0` just after `t`, stays positive up to `hi` if the depth counted
   * from `t`, starting at `d`, does; at `hi` the two counts agree.
   */
  lemma DepthAcrossStop(toks: seq<Token>, c: int, t: int, hi: int, depth: nat, d: int, left: Kind, right: Kind)
    requires -1 <= c < t < hi <= |toks| && depth >= 1 && d > 0
    requires forall e :: c < e <= t ==> Net(toks, c, e, left, right) == 0
    requires depth + Net(toks, c, t + 1, left, right) == d
    requires forall e :: t + 1 < e < hi ==> d + Net(toks, t, e, left, right) > 0
    ensures forall e :: c + 1 < e < hi ==> depth + Net(toks, c, e, left, right) > 0
    ensures depth + Net(toks, c, hi, left, right) == d + Net(toks, t, hi, left, right)
  {
    NetSplit(toks, c, t, hi, left, right);
    forall e | t + 1 < e < hi
      ensures depth + Net(toks, c, e, left, right) == d + Net(toks, t, e, left, right)
    {
      NetSplit(toks, c, t, e, left, right);
    }
  }

  /** When the running depth from `c` is below zero just after `j`, the matcher closes before `j`. */
  lemma MatchFromBefore(toks: seq<Token>, c: int, j: int, left: Kind, right: Kind)
    requires Terminated(toks) && -1 <= c < j && j + 1 < |toks|
    requires left != EndOfFile && right != EndOfFile
    requires 1 + Net(toks, c, j + 1, left, right) < 0
    ensures MatchFrom(toks, c, 1, left, right).Some?
    ensures MatchFrom(toks, c, 1, left, right).value < j
  {
    MatchFromDepth(toks, c, 1, left, right);
  }

  /** From an opener inside a matched block to that block's closer, the depth falls by at least two. */
  lemma NestedNet(toks: seq<Token>, o: nat, j: nat, inner: nat, left: Kind, right: Kind)
    requires Terminated(toks) && o < |toks| && left != EndOfFile && right != EndOfFile
    requires MatchFrom(toks, o, 1, left, right) == Some(j)
    requires o < inner < j && toks[inner].kind == left
    ensures j + 1 < |toks| && 1 + Net(toks, inner, j + 1, left, right) < 0
  {
    MatchFromDepth(toks, o, 1, left, right);
    assert Net(toks, o, inner, left, right) >= 0 by {
      if o + 1 < inner {
        assert 1 + Net(toks, o, inner, left, right) > 0;
      }
    }
    NetSplit(toks, o, inner - 1, inner + 1, left, right);
    assert Net(toks, inner - 1, inner + 1, left, right) == 1;
    NetSplit(toks, o, inner, j + 1, left, right);
  }

  /** A block opened inside a matched block is matched, and closes before it. */
  lemma MatchNested(toks: seq<Token>, o: nat, j: nat, inner: nat, left: Kind, right: Kind)
    requires Terminated(toks) && o < |toks| && left != EndOfFile && right != EndOfFile
    requires MatchFrom(toks, o, 1, left, right) == Some(j)
    requires o < inner < j && toks[inner].kind == left
    ensures MatchFrom(toks, inner, 1, left, right).Some?
    ensures MatchFrom(toks, inner, 1, left, right).value < j
  {
    NestedNet(toks, o, j, inner, left, right);
    MatchFromBefore(toks, inner, j, left, right);
  }

  /** One round of the matcher: jump to the next `left`, `right` or end of file and adjust the depth. */
  lemma MatchStep(toks: seq<Token>, c: int, depth: nat, left: Kind, right: Kind)
    requires Terminated(toks) && -1 <= c < |toks| && depth >= 1
    requires left != EndOfFile && right != EndOfFile
    ensures var t := ScanUntil(toks, c, left, right);
            var k := toks[t].kind;
            MatchFrom(toks, c, depth, left, right) ==
              if k == EndOfFile then None
              else if depth + Delta(k, left, right) == 0 then Some(t)
              else MatchFrom(toks, t, depth + Delta(k, left, right), left, right)
  {
  }

  /** The span `delimited` reports from cursor `c`. */
  function SpanOf(toks: seq<Token>, c: int, left: Kind, right: Kind): Option<Span>
    requires Terminated(toks) && -1 <= c < |toks|
    requires left != EndOfFile && right != EndOfFile
  {
    match MatchFrom(toks, c, 1, left, right)
    case None => None
    case Some(j) => Some(Span(PosAt(toks, c), toks[j].pos - PosAt(toks, c)))
  }

  /** Where a destructive `delimited` leaves the cursor: the closer, or the end of file. */
  function DelimitedEnd(toks: seq<Token>, c: int, left: Kind, right: Kind): (r: int)
    requires Terminated(toks) && -1 <= c < |toks|
    requires left != EndOfFile && right != EndOfFile
    ensures c <= r < |toks|
  {
    match MatchFrom(toks, c, 1, left, right)
    case None => |toks| - 1
    case Some(j) => j
  }

  /** `SpanOf` and `DelimitedEnd` in terms of the match. */
  lemma SpanOfMatch(toks: seq<Token>, c: int, left: Kind, right: Kind)
    requires Terminated(toks) && -1 <= c < |toks|
    requires left != EndOfFile && right != EndOfFile
    ensures MatchFrom(toks, c, 1, left, right).None? ==>
              SpanOf(toks, c, left, right).None? && DelimitedEnd(toks, c, left, right) == |toks| - 1
    ensures MatchFrom(toks, c, 1, left, right).Some? ==>
              var j := MatchFrom(toks, c, 1, left, right).value;
              && SpanOf(toks, c, left, right) == Some(Span(PosAt(toks, c), toks[j].pos - PosAt(toks, c)))
              && DelimitedEnd(toks, c, left, right) == j
  {
  }

  /**
   * The scan of the body text in `findFinalReturn`, from cursor `c`: the
   * offset of the return it settles on, or `None`.
   */
  function ScanBody(toks: seq<Token>, c: int): Option<nat>
    requires Terminated(toks) && -1 <= c < |toks|
    decreases |toks| - c
  {
    var t := ScanUntil(toks, c, OpenBrace, ReturnKeyword);
    if toks[Ahead(toks, t, 1)].kind == Semicolon then None
    else if toks[t].kind == ReturnKeyword then Some(toks[t].pos)
    else if toks[t].kind == OpenBrace then ScanBody(toks, DelimitedEnd(toks, t, OpenBrace, CloseBrace))
    else None
  }

  /** One round of the body scan. */
  lemma ScanBodyStep(toks: seq<Token>, c: int)
    requires Terminated(toks) && -1 <= c < |toks|
    ensures var t := ScanUntil(toks, c, OpenBrace, ReturnKeyword);
            ScanBody(toks, c) ==
              if toks[Ahead(toks, t, 1)].kind == Semicolon then None
              else if toks[t].kind == ReturnKeyword then Some(toks[t].pos)
              else if toks[t].kind == OpenBrace then ScanBody(toks, DelimitedEnd(toks, t, OpenBrace, CloseBrace))
              else None
  {
  }

  /** The text between the braces of a block span, as `findFinalReturn` cuts it. */
  function BodyText(file: string, body: Span): string {
    Substring(file, body.start + 1, body.start + body.length - 2)
  }

  /** The span of the first `{ ... }` block of `file`, if it is closed. */
  function FirstBlock(file: string, lex: string -> seq<Token>): Option<Span>
    requires LexerSound(lex)
  {
    var toks := lex(file);
    assert WellLexed(file, toks);
    var o := ScanUntil(toks, -1, OpenBrace, OpenBrace);
    if toks[o].kind != OpenBrace then None
    else SpanOf(toks, o, OpenBrace, CloseBrace)
  }

  /** What `findFinalReturn(file)` returns. */
  function FinalReturn(file: string, lex: string -> seq<Token>): Option<nat>
    requires LexerSound(lex)
  {
    match FirstBlock(file, lex)
    case None => None
    case Some(body) =>
      var contents := BodyText(file, body);
      assert WellLexed(contents, lex(contents));
      match ScanBody(lex(contents), -1)
      case None => None
      case Some(q) => Some(body.start + 1 + q)
  }

  /** `FinalReturn` once the first block is known. */
  lemma FinalReturnOfBlock(file: string, lex: string -> seq<Token>, body: Span)
    requires LexerSound(lex) && FirstBlock(file, lex) == Some(body)
    ensures WellLexed(BodyText(file, body), lex(BodyText(file, body)))
    ensures FinalReturn(file, lex) ==
              match ScanBody(lex(BodyText(file, body)), -1)
              case None => None
              case Some(q) => Some(body.start + 1 + q)
  {
    assert WellLexed(BodyText(file, body), lex(BodyText(file, body)));
  }

  /* ---------------------------------------------------------------------
   * What the body scan finds: the first return at the top level
   * --------------------------------------------------------------------- */

  /** The block opened at `o` is still open at index `i`: it closes at or after `i`, or never. */
  ghost predicate OpenAt(toks: seq<Token>, o: nat, i: int)
    requires Terminated(toks) && o < |toks|
  {
    && toks[o].kind == OpenBrace
    && match MatchFrom(toks, o, 1, OpenBrace, CloseBrace)
       case None => true
       case Some(j) => i <= j
  }

  /** Token `o` is not an opener, or its block is closed at or before index `c`. */
  ghost predicate ClosedBy(toks: seq<Token>, o: nat, c: int)
    requires Terminated(toks) && o < |toks|
  {
    toks[o].kind == OpenBrace ==>
      match MatchFrom(toks, o, 1, OpenBrace, CloseBrace)
      case None => false
      case Some(j) => j <= c
  }

  /** No block opened before `i` is still open at `i`. */
  ghost predicate TopLevel(toks: seq<Token>, i: int)
    requires Terminated(toks) && i < |toks|
  {
    forall o: nat :: o < i ==> !OpenAt(toks, o, i)
  }

  /**
   * Token `r` is a `return` at the top level, is not followed by `;`, and
   * every earlier `return` is nested in some block.
   */
  ghost predicate FirstTopLevelReturn(toks: seq<Token>, r: int)
    requires Terminated(toks)
  {
    && 0 <= r < |toks| - 1
    && toks[r].kind == ReturnKeyword
    && toks[r + 1].kind != Semicolon
    && TopLevel(toks, r)
    && forall r': nat :: r' < r && toks[r'].kind == ReturnKeyword ==> !TopLevel(toks, r')
  }

  lemma {:induction false} ScanBodyFrom(toks: seq<Token>, c: int)
    requires Terminated(toks) && -1 <= c < |toks|
    requires forall o: nat :: o <= c ==> ClosedBy(toks, o, c)
    requires forall r: nat :: r <= c && toks[r].kind == ReturnKeyword ==> !TopLevel(toks, r)
    decreases |toks| - c
    ensures ScanBody(toks, c).Some? ==>
              exists r :: c < r && FirstTopLevelReturn(toks, r) && toks[r].pos == ScanBody(toks, c).value
  {
    var t := ScanUntil(toks, c, OpenBrace, ReturnKeyword);
    ScanUntilSkips(toks, c, OpenBrace, ReturnKeyword);
    if toks[Ahead(toks, t, 1)].kind == Semicolon {
    } else if toks[t].kind == ReturnKeyword {
      forall o: nat | o < t ensures !OpenAt(toks, o, t) {
        if o <= c {
          assert ClosedBy(toks, o, c);
        } else {
          assert toks[o].kind != OpenBrace;
        }
      }
      assert FirstTopLevelReturn(toks, t);
    } else if toks[t].kind == OpenBrace {
      var m := MatchFrom(toks, t, 1, OpenBrace, CloseBrace);
      if m.None? {
        var last := |toks| - 1;
        assert ScanUntil(toks, last, OpenBrace, ReturnKeyword) == last;
        assert ScanBody(toks, last) == None;
      } else {
        var j := m.value;
        forall o: nat | o <= j ensures ClosedBy(toks, o, j) {
          if o <= c {
            assert ClosedBy(toks, o, c);
          } else if o < t {
            assert toks[o].kind != OpenBrace;
          } else if t < o < j && toks[o].kind == OpenBrace {
            MatchNested(toks, t, j, o, OpenBrace, CloseBrace);
          }
        }
        forall r: nat | r <= j && toks[r].kind == ReturnKeyword ensures !TopLevel(toks, r) {
          if t < r {
            assert OpenAt(toks, t, r);
          }
        }
        ScanBodyFrom(toks, j);
      }
    }
  }

  /** A return the body scan reports is the first top-level `return` of the body, not followed by `;`. */
  lemma ScanBodyFindsTopLevelReturn(toks: seq<Token>)
    requires Terminated(toks)
    ensures ScanBody(toks, -1).Some? ==>
              exists r :: FirstTopLevelReturn(toks, r) && toks[r].pos == ScanBody(toks, -1).value
  {
    ScanBodyFrom(toks, -1);
  }

  /**
   * No `{` at the top level strictly between `c` and `r` is followed by
   * `;`. Such a brace makes the body scan give up, because `peek` sees the
   * `;` after it.
   */
  ghost predicate Unblocked(toks: seq<Token>, c: int, r: int)
    requires Terminated(toks) && r < |toks|
  {
    forall t: nat :: c < t < r && toks[t].kind == OpenBrace && TopLevel(toks, t) ==> toks[t + 1].kind != Semicolon
  }

  /** With every block opened up to `c` closed by then, a token after `c` with no `{` in between is at the top level. */
  lemma StopIsTopLevel(toks: seq<Token>, c: int, t: nat)
    requires Terminated(toks) && -1 <= c < t < |toks|
    requires forall o: nat :: o <= c ==> ClosedBy(toks, o, c)
    requires forall o :: c < o < t ==> toks[o].kind != OpenBrace
    ensures TopLevel(toks, t)
  {
    forall o: nat | o < t ensures !OpenAt(toks, o, t) {
      if o <= c {
        assert ClosedBy(toks, o, c);
      }
    }
  }

  /** Once the first block after `c` closes at `j`, every block opened up to `j` is closed by `j`. */
  lemma ClosedAfterBlock(toks: seq<Token>, c: int, t: nat, j: nat)
    requires Terminated(toks) && -1 <= c < t < |toks|
    requires forall o: nat :: o <= c ==> ClosedBy(toks, o, c)
    requires forall o :: c < o < t ==> toks[o].kind != OpenBrace
    requires toks[t].kind == OpenBrace && MatchFrom(toks, t, 1, OpenBrace, CloseBrace) == Some(j)
    ensures forall o: nat :: o <= j ==> ClosedBy(toks, o, j)
  {
    forall o: nat | o <= j ensures ClosedBy(toks, o, j) {
      if o <= c {
        assert ClosedBy(toks, o, c);
      } else if o < t {
        assert toks[o].kind != OpenBrace;
      } else if o == t {
        assert MatchFrom(toks, o, 1, OpenBrace, CloseBrace) == Some(j);
      } else if o < j {
        if toks[o].kind == OpenBrace {
          MatchNested(toks, t, j, o, OpenBrace, CloseBrace);
        }
      } else {
        assert toks[o].kind == CloseBrace;
      }
    }
  }

  /** Skipping a top-level block whose `{` is not followed by `;` leaves what blocks the scan unchanged. */
  lemma UnblockedAcrossBlock(toks: seq<Token>, c: int, t: nat, j: nat, r: nat)
    requires Terminated(toks) && -1 <= c < t < j < r < |toks|
    requires forall o :: c < o < t ==> toks[o].kind != OpenBrace
    requires toks[t].kind == OpenBrace && toks[t + 1].kind != Semicolon
    requires MatchFrom(toks, t, 1, OpenBrace, CloseBrace) == Some(j)
    ensures Unblocked(toks, c, r) <==> Unblocked(toks, j, r)
  {
    forall o: nat | t < o <= j && toks[o].kind == OpenBrace ensures !TopLevel(toks, o) {
      assert OpenAt(toks, t, o);
    }
  }

  /**
   * The body scan finds the first top-level `return` after `c`, unless a
   * top-level `{` before it is followed by `;`. In that case it gives up.
   */
  lemma {:induction false} ScanBodyFindsFirst(toks: seq<Token>, c: int, r: nat)
    requires Terminated(toks) && -1 <= c < r && FirstTopLevelReturn(toks, r)
    requires forall o: nat :: o <= c ==> ClosedBy(toks, o, c)
    decreases |toks| - c
    ensures ScanBody(toks, c) == if Unblocked(toks, c, r) then Some(toks[r].pos) else None
  {
    var t := ScanUntil(toks, c, OpenBrace, ReturnKeyword);
    ScanUntilSkips(toks, c, OpenBrace, ReturnKeyword);
    assert t <= r;
    StopIsTopLevel(toks, c, t);
    assert Ahead(toks, t, 1) == t + 1;
    if t < r {
      assert toks[t].kind != ReturnKeyword;
      assert Inner(toks, t);
      if toks[t + 1].kind != Semicolon {
        assert !OpenAt(toks, t, r);
        var j := MatchFrom(toks, t, 1, OpenBrace, CloseBrace).value;
        ClosedAfterBlock(toks, c, t, j);
        UnblockedAcrossBlock(toks, c, t, j, r);
        ScanBodyFindsFirst(toks, j, r);
      }
    }
  }

  lemma SliceOfSlice(s: string, a: nat, b: nat, i: nat, j: nat)
    requires a <= b <= |s| && i <= j <= b - a
    ensures s[a..b][i..j] == s[a + i..a + j]
  {
    forall k | 0 <= k < j - i
      ensures s[a..b][i..j][k] == s[a + i..a + j][k]
    {
      assert s[a..b][i..j][k] == s[a + i + k];
    }
  }

  /** A body text longer than two characters is the slice of the file between the cut points. */
  lemma BodyTextSlice(file: string, body: Span)
    requires 1 <= body.length && body.start + body.length < |file|
    requires |BodyText(file, body)| > 2
    ensures body.start + 1 <= body.start + body.length - 2
    ensures BodyText(file, body) == file[body.start + 1..body.start + body.length - 2]
  {
  }

  /**
   * A `return` token lexed from the body text of a block that ends inside
   * `file` spells `return` in `file` itself, one past the opening brace.
   */
  lemma ReturnInBody(file: string, body: Span, ctoks: seq<Token>, r: nat)
    requires 1 <= body.length && body.start + body.length < |file|
    requires r < |ctoks| && ctoks[r].kind == ReturnKeyword
    requires Lexed(BodyText(file, body), ctoks, r)
    ensures OccursAt(file, "return", body.start + 1 + ctoks[r].pos)
  {
    var contents := BodyText(file, body);
    var q := ctoks[r].pos;
    assert q + 6 <= |contents| && contents[q..q + 6] == "return";
    BodyTextSlice(file, body);
    SliceOfSlice(file, body.start + 1, body.start + body.length - 2, q, q + 6);
  }

  /**
   * When `findFinalReturn` reports `p`, the text reads `return` at `p`, and
   * that keyword is the first top-level return of the first block's body.
   */
  lemma FinalReturnIsTopLevelReturn(file: string, lex: string -> seq<Token>)
    requires LexerSound(lex)
    ensures FinalReturn(file, lex).Some? ==>
              var p := FinalReturn(file, lex).value;
              && OccursAt(file, "return", p)
              && FirstBlock(file, lex).Some?
              && var body := FirstBlock(file, lex).value;
                 var toks := lex(BodyText(file, body));
                 && WellLexed(BodyText(file, body), toks)
                 && exists r :: FirstTopLevelReturn(toks, r) && p == body.start + 1 + toks[r].pos
  {
    if FinalReturn(file, lex).Some? {
      var body := FirstBlock(file, lex).value;
      FirstBlockInFile(file, lex);
      FinalReturnOfBlock(file, lex, body);
      var ctoks := lex(BodyText(file, body));
      ScanBodyFindsTopLevelReturn(ctoks);
      var r :| FirstTopLevelReturn(ctoks, r) && ctoks[r].pos == ScanBody(ctoks, -1).value;
      ReturnInBody(file, body, ctoks, r);
    }
  }

  /** The first block spans at least its two braces and closes before the end of the file. */
  lemma FirstBlockInFile(file: string, lex: string -> seq<Token>)
    requires LexerSound(lex) && FirstBlock(file, lex).Some?
    ensures var body := FirstBlock(file, lex).value;
            1 <= body.length && body.start + body.length < |file|
  {
    var toks := lex(file);
    assert WellLexed(file, toks);
    var o := ScanUntil(toks, -1, OpenBrace, OpenBrace);
    var j := MatchFrom(toks, o, 1, OpenBrace, CloseBrace).value;
    var body := FirstBlock(file, lex).value;
    assert body.start == toks[o].pos && body.start + body.length == toks[j].pos;
    assert Precedes(toks, j, |toks| - 1) && Lexed(file, toks, |toks| - 1);
    assert Precedes(toks, o, j);
  }

  /** The offset `findFinalReturn` reports is where `return` is spelled out. */
  lemma FinalReturnSpellsReturn(file: string, lex: string -> seq<Token>)
    requires LexerSound(lex) && FinalReturn(file, lex).Some?
    ensures OccursAt(file, "return", FinalReturn(file, lex).value)
  {
    FinalReturnIsTopLevelReturn(file, lex);
  }

  /**
   * The converse of `FinalReturnIsTopLevelReturn`: when the first block's
   * body has a first top-level `return`, `findFinalReturn` reports it,
   * unless a top-level `{` before it is followed by `;`. In that case it
   * reports nothing.
   */
  lemma FinalReturnFindsFirst(file: string, lex: string -> seq<Token>, body: Span, r: nat)
    requires LexerSound(lex) && FirstBlock(file, lex) == Some(body)
    requires WellLexed(BodyText(file, body), lex(BodyText(file, body)))
    requires FirstTopLevelReturn(lex(BodyText(file, body)), r)
    ensures var toks := lex(BodyText(file, body));
            FinalReturn(file, lex) == if Unblocked(toks, -1, r) then Some(body.start + 1 + toks[r].pos) else None
  {
    var toks := lex(BodyText(file, body));
    FinalReturnOfBlock(file, lex, body);
    ScanBodyFindsFirst(toks, -1, r);
  }

  /* ---------------------------------------------------------------------
   * The scanner-driven procedures
   * --------------------------------------------------------------------- */

  /**
   * The `do { token = scan() } while (...)` loop of `find`, `delimited` and
   * `findFinalReturn`: scan at least once, stopping on a token of kind `a`
   * or `b`, or on the end of file.
   */
  method ScanTo(a: Kind, b: Kind, s: Scanner) returns (token: Kind)
    requires s.Valid()
    modifies s`cursor
    ensures s.Valid() && s.cursor == ScanUntil(s.tokens, old(s.cursor), a, b)
    ensures token == s.tokens[s.cursor].kind
  {
    ghost var c0 := s.cursor;
    ghost var prev := s.cursor;
    token := s.Scan();
    while token != a && token != b && token != EndOfFile
      invariant s.Valid() && -1 <= prev < |s.tokens| && s.cursor == Next(s.tokens, prev)
      invariant token == s.tokens[s.cursor].kind
      invariant ScanUntil(s.tokens, prev, a, b) == ScanUntil(s.tokens, c0, a, b)
      decreases |s.tokens| - s.cursor
    {
      prev := s.cursor;
      token := s.Scan();
    }
  }

  /** `find`: advance to the next token of `kind`, or to the end of file. */
  method Find(kind: Kind, s: Scanner) returns (found: bool)
    requires s.Valid()
    modifies s`cursor
    ensures s.Valid() && s.cursor == ScanUntil(s.tokens, old(s.cursor), kind, kind)
    ensures found <==> s.TokenKind() == kind
  {
    var _ := ScanTo(kind, kind, s);
    found := s.TokenKind() == kind;
  }

  /** `peek`: whether the `count`-th token ahead has `kind`, leaving the scanner where it was. */
  method Peek(kind: Kind, s: Scanner, count: nat) returns (b: bool)
    requires s.Valid()
    modifies s`cursor
    ensures s.Valid() && s.cursor == old(s.cursor)
    ensures b <==> count > 0 && s.tokens[Ahead(s.tokens, old(s.cursor), count)].kind == kind
  {
    var saved := s.cursor;
    var token: Option<Kind> := None;
    var n: nat := count;
    while n > 0
      invariant s.Valid() && n <= count
      invariant s.cursor == Ahead(s.tokens, saved, count - n)
      invariant token == if n == count then None else Some(s.tokens[s.cursor].kind)
    {
      var k := s.Scan();
      token := Some(k);
      n := n - 1;
    }
    b := token == Some(kind);
    s.Rewind(saved);
  }

  /**
   * One round of the outer loop of `_span`: scan to the next `left`,
   * `right` or end of file and count it on the stack.
   */
  method Nest(left: Kind, right: Kind, s: Scanner, stack: nat) returns (token: Kind, stack': nat)
    requires s.Valid() && left != EndOfFile && right != EndOfFile && stack >= 1
    modifies s`cursor
    ensures s.Valid() && s.cursor == ScanUntil(s.tokens, old(s.cursor), left, right)
    ensures token == s.tokens[s.cursor].kind
    ensures stack' == stack + Delta(token, left, right)
    ensures token == EndOfFile ==> s.cursor == |s.tokens| - 1 && MatchFrom(s.tokens, old(s.cursor), stack, left, right) == None
    ensures token != EndOfFile && stack' == 0 ==> MatchFrom(s.tokens, old(s.cursor), stack, left, right) == Some(s.cursor)
    ensures token != EndOfFile && stack' != 0 ==>
              MatchFrom(s.tokens, old(s.cursor), stack, left, right) == MatchFrom(s.tokens, s.cursor, stack', left, right)
  {
    MatchStep(s.tokens, s.cursor, stack, left, right);
    token := ScanTo(left, right, s);
    stack' := stack;
    if token == left {
      stack' := stack + 1;
    } else if token == right {
      stack' := stack - 1;
    }
  }

  /**
   * The outer `do ... while (stack != 0)` loop of `_span`: from depth
   * `stack`, scan until the depth returns to zero (`closed`, on the closing
   * token) or the end of file is reached.
   */
  method Close(left: Kind, right: Kind, s: Scanner, stack: nat) returns (closed: bool)
    requires s.Valid() && left != EndOfFile && right != EndOfFile && stack >= 1
    modifies s`cursor
    ensures s.Valid()
    ensures closed ==> MatchFrom(s.tokens, old(s.cursor), stack, left, right) == Some(s.cursor)
    ensures !closed ==> MatchFrom(s.tokens, old(s.cursor), stack, left, right) == None && s.cursor == |s.tokens| - 1
  {
    ghost var toks := s.tokens;
    ghost var target := MatchFrom(toks, s.cursor, stack, left, right);
    var depth: nat := stack;
    while depth != 0
      invariant s.Valid() && s.tokens == toks
      invariant depth != 0 ==> MatchFrom(toks, s.cursor, depth, left, right) == target
      invariant depth == 0 ==> target == Some(s.cursor)
      decreases |toks| - s.cursor
    {
      var token, next := Nest(left, right, s, depth);
      if token == EndOfFile {
        return false;
      }
      depth := next;
    }
    return true;
  }

  /**
   * The `_span` closure of `delimited`: from an opener under the cursor
   * (depth 1), scan to the matching `right`, leaving the scanner on it or
   * on the end of file.
   */
  method SpanFrom(left: Kind, right: Kind, s: Scanner) returns (span: Option<Span>)
    requires s.Valid() && left != EndOfFile && right != EndOfFile
    modifies s`cursor
    ensures s.Valid()
    ensures span == SpanOf(s.tokens, old(s.cursor), left, right)
    ensures s.cursor == DelimitedEnd(s.tokens, old(s.cursor), left, right)
  {
    SpanOfMatch(s.tokens, s.cursor, left, right);
    var start := s.TokenPos();
    var closed := Close(left, right, s, 1);
    if !closed {
      return None;
    }
    span := Some(Span(start, s.TokenPos() - start));
  }

  /**
   * `delimited`: `_span`, wrapped in a look-ahead that puts the scanner
   * back unless `reset` is false.
   */
  method Delimited(left: Kind, right: Kind, s: Scanner, reset: bool) returns (span: Option<Span>)
    requires s.Valid() && left != EndOfFile && right != EndOfFile
    modifies s`cursor
    ensures s.Valid()
    ensures span == SpanOf(s.tokens, old(s.cursor), left, right)
    ensures s.cursor == if reset then old(s.cursor) else DelimitedEnd(s.tokens, old(s.cursor), left, right)
  {
    var saved := s.cursor;
    span := SpanFrom(left, right, s);
    if reset {
      s.Rewind(saved);
    }
  }

  /**
   * The `while (true)` loop of `findFinalReturn` over the body text: skip
   * nested blocks, give up on `;`, and report the offset of the first
   * `return` met at the top level.
   */
  method ScanReturn(s: Scanner) returns (q: Option<nat>)
    requires s.Valid()
    modifies s`cursor
    ensures q == ScanBody(s.tokens, old(s.cursor))
  {
    ghost var target := ScanBody(s.tokens, s.cursor);
    while true
      invariant s.Valid() && s.tokens == old(s.tokens)
      invariant ScanBody(s.tokens, s.cursor) == target
      decreases |s.tokens| - s.cursor
    {
      ScanBodyStep(s.tokens, s.cursor);
      var token := ScanTo(OpenBrace, ReturnKeyword, s);
      var semicolon := Peek(Semicolon, s, 1);
      if semicolon {
        return None;
      }
      if token == ReturnKeyword {
        return Some(s.TokenPos());
      } else if token == OpenBrace {
        var _ := Delimited(OpenBrace, CloseBrace, s, false);
      } else {
        return None;
      }
    }
  }

  /** `findFinalReturn`: the offset of the terminal `return` of the first block of `file`. */
  method FindFinalReturn(file: string, lex: string -> seq<Token>) returns (pos: Option<nat>)
    requires LexerSound(lex)
    ensures pos == FinalReturn(file, lex)
  {
    assert WellLexed(file, lex(file));
    var s := new Scanner(file, lex(file));
    var found := Find(OpenBrace, s);
    if !found {
      assert FirstBlock(file, lex) == None;
      return None;
    }
    var body := Delimited(OpenBrace, CloseBrace, s, true);
    if body.None? {
      assert FirstBlock(file, lex) == None;
      return None;
    }
    FinalReturnOfBlock(file, lex, body.value);
    var contents := Substring(file, body.value.start + 1, body.value.start + body.value.length - 2);
    assert WellLexed(contents, lex(contents));
    s.SetText(contents, lex(contents));
    var q := ScanReturn(s);
    if q.None? {
      return None;
    }
    return Some(body.value.start + 1 + q.value);
  }

  /* ---------------------------------------------------------------------
   * The string splices
   * --------------------------------------------------------------------- */

  const ExportPrefix := "module.exports="

  /** The text with the six characters at `p` replaced by `module.exports=`. */
  function SpliceExport(text: string, p: nat): string
    requires p + 6 <= |text|
  {
    text[..p] + ExportPrefix + text[p + 6..]
  }

  /** `replaceLast`: replace the last occurrence of `needle`, if any. */
  function ReplaceLast(src: string, needle: string, replace: string): (r: string)
    ensures !Contains(src, needle) ==> r == src
    ensures Contains(src, needle) ==>
              exists k :: && OccursAt(src, needle, k)
                          && (forall j :: k < j ==> !OccursAt(src, needle, j))
                          && r == src[..k] + replace + src[k + |needle|..]
  {
    var idx := LastIndexOf(src, needle);
    if idx != -1 then src[..idx] + replace + src[idx + |needle|..] else src
  }

  /** Replacing the last needle by the needle followed by `extra` inserts `extra` right after that needle. */
  lemma ReplaceLastAppends(src: string, needle: string, extra: string, replace: string)
    requires replace == needle + extra
    ensures var k := LastIndexOf(src, needle);
            k != -1 ==> ReplaceLast(src, needle, replace) == src[..k + |needle|] + extra + src[k + |needle|..]
  {
    var k := LastIndexOf(src, needle);
    if k != -1 {
      var front, rest := src[..k], src[k + |needle|..];
      assert src[..k + |needle|] == front + needle;
      assert ReplaceLast(src, needle, replace) == front + (needle + extra) + rest;
      assert front + (needle + extra) + rest == front + needle + extra + rest;
    }
  }

  /** The arrow fallback appends `module.exports=` right after the last `=>`. */
  lemma ArrowExport(file: string)
    ensures !Contains(file, "=>") ==> ReplaceLast(file, "=>", "=>module.exports=") == file
    ensures Contains(file, "=>") ==>
              exists k :: && OccursAt(file, "=>", k)
                          && (forall j :: k < j ==> !OccursAt(file, "=>", j))
                          && ReplaceLast(file, "=>", "=>module.exports=") == file[..k + 2] + ExportPrefix + file[k + 2..]
  {
    if Contains(file, "=>") {
      ArrowExportLast(file);
    }
  }

  /** The replacement text of the arrow fallback is the arrow followed by the export prefix. */
  lemma ArrowReplacement()
    ensures "=>module.exports=" == "=>" + ExportPrefix
  {
  }

  /** When the file has an arrow, the fallback inserts the export prefix after its last one. */
  lemma ArrowExportLast(file: string)
    requires Contains(file, "=>")
    ensures exists k :: && OccursAt(file, "=>", k)
                        && (forall j :: k < j ==> !OccursAt(file, "=>", j))
                        && ReplaceLast(file, "=>", "=>module.exports=") == file[..k + 2] + ExportPrefix + file[k + 2..]
  {
    ArrowReplacement();
    ReplaceLastAppends(file, "=>", ExportPrefix, "=>module.exports=");
    var k := LastIndexOf(file, "=>");
    assert k + |"=>"| == k + 2;
    assert OccursAt(file, "=>", k);
  }

  /**
   * `virtualModule`: rewrite the module that starts one character before the
   * first occurrence of `alias` (its opening quote), leaving the rest alone.
   */
  function VirtualModule(file: string, alias: string, lex: string -> seq<Token>): (r: string)
    requires LexerSound(lex)
    ensures !Contains(file, alias) ==> r == file
    ensures Contains(file, alias) && FinalReturn(SubstringFrom(file, IndexOf(file, alias) - 1), lex).None? ==> r == file
  {
    var moduleIndex := IndexOf(file, alias);
    if moduleIndex == -1 then file
    else
      var mi := moduleIndex - 1;
      var subModule := SubstringFrom(file, mi);
      match FinalReturn(subModule, lex)
      case None => file
      case Some(pos) =>
        Substring(file, 0, mi) + Substring(subModule, 0, pos) + ExportPrefix + SubstringFrom(subModule, pos + 6)
  }

  /** `"odoo"` occurs at least twice. */
  ghost predicate SeveralOdoo(file: string) {
    exists i, j :: i < j && OccursAt(file, "odoo", i) && OccursAt(file, "odoo", j)
  }

  /**
   * `replaceFinalReturn`: a file naming `odoo` twice holds several modules
   * and gets `virtualModule`. Otherwise the located return is rewritten, or,
   * failing one, the last arrow.
   */
  function ReplaceFinalReturn(file: string, alias: string, lex: string -> seq<Token>): (r: string)
    requires LexerSound(lex)
    ensures SeveralOdoo(file) ==> r == VirtualModule(file, alias, lex)
    ensures !SeveralOdoo(file) && FinalReturn(file, lex).None? ==> r == ReplaceLast(file, "=>", "=>module.exports=")
  {
    FirstAndLastDiffer(file, "odoo");
    if IndexOf(file, "odoo") != LastIndexOf(file, "odoo") then VirtualModule(file, alias, lex)
    else
      match FinalReturn(file, lex)
      case Some(pos) => Substring(file, 0, pos) + ExportPrefix + SubstringFrom(file, pos + 6)
      case None => ReplaceLast(file, "=>", "=>module.exports=")
  }

  /** Rewriting a `return` found in a suffix of the file rewrites it in the file. */
  lemma SpliceSuffix(file: string, start: nat, pos: nat)
    requires start <= |file| && OccursAt(file[start..], "return", pos)
    ensures OccursAt(file, "return", start + pos)
    ensures file[..start] + Substring(file[start..], 0, pos) + ExportPrefix + SubstringFrom(file[start..], pos + 6)
            == SpliceExport(file, start + pos)
  {
    var sub, k := file[start..], start + pos;
    assert file[k..k + 6] == sub[pos..pos + 6];
    assert file[..start] + sub[..pos] == file[..k];
    assert sub[pos + 6..] == file[k + 6..];
  }

  /** When the module after the alias has a final return at `pos`, `virtualModule` rewrites it in place. */
  lemma VirtualModuleSplice(file: string, alias: string, lex: string -> seq<Token>, pos: nat)
    requires LexerSound(lex) && IndexOf(file, alias) != -1
    requires FinalReturn(SubstringFrom(file, IndexOf(file, alias) - 1), lex) == Some(pos)
    ensures var k := Clamp(IndexOf(file, alias) - 1, |file|) + pos;
            OccursAt(file, "return", k) && VirtualModule(file, alias, lex) == SpliceExport(file, k)
  {
    var mi := IndexOf(file, alias) - 1;
    var subModule := SubstringFrom(file, mi);
    var start := Clamp(mi, |file|);
    assert subModule == file[start..];
    FinalReturnSpellsReturn(subModule, lex);
    SpliceSuffix(file, start, pos);
    assert Substring(file, 0, mi) == file[..start];
  }

  /**
   * `virtualModule` leaves the file alone when the alias is absent, and
   * otherwise changes at most one `return` keyword, lying at or after the
   * quote before the alias, into `module.exports=`.
   */
  lemma VirtualModuleRewritesOneReturn(file: string, alias: string, lex: string -> seq<Token>)
    requires LexerSound(lex)
    ensures !Contains(file, alias) ==> VirtualModule(file, alias, lex) == file
    ensures || VirtualModule(file, alias, lex) == file
            || exists k :: && IndexOf(file, alias) - 1 <= k
                           && OccursAt(file, "return", k)
                           && VirtualModule(file, alias, lex) == SpliceExport(file, k)
  {
    var moduleIndex := IndexOf(file, alias);
    if moduleIndex != -1 {
      var subModule := SubstringFrom(file, moduleIndex - 1);
      if FinalReturn(subModule, lex).Some? {
        VirtualModuleSplice(file, alias, lex, FinalReturn(subModule, lex).value);
      }
    }
  }

  /**
   * `replaceFinalReturn` makes one minimal edit: it returns the file
   * unchanged, or turns one `return` keyword into `module.exports=`, or
   * appends `module.exports=` to the last `=>`. The virtual-module path is
   * taken exactly when `"odoo"` occurs twice; otherwise a located return is
   * the one rewritten.
   */
  lemma ReplaceFinalReturnEdit(file: string, alias: string, lex: string -> seq<Token>)
    requires LexerSound(lex)
    ensures SeveralOdoo(file) ==> ReplaceFinalReturn(file, alias, lex) == VirtualModule(file, alias, lex)
    ensures !SeveralOdoo(file) && FinalReturn(file, lex).Some? ==>
              var p := FinalReturn(file, lex).value;
              OccursAt(file, "return", p) && ReplaceFinalReturn(file, alias, lex) == SpliceExport(file, p)
    ensures !SeveralOdoo(file) && FinalReturn(file, lex).None? ==>
              ReplaceFinalReturn(file, alias, lex) == ReplaceLast(file, "=>", "=>module.exports=")
    ensures var r := ReplaceFinalReturn(file, alias, lex);
            || r == file
            || (exists k :: OccursAt(file, "return", k) && r == SpliceExport(file, k))
            || (exists k :: && OccursAt(file, "=>", k)
                            && (forall j :: k < j ==> !OccursAt(file, "=>", j))
                            && r == file[..k + 2] + ExportPrefix + file[k + 2..])
  {
    FirstAndLastDiffer(file, "odoo");
    var r := ReplaceFinalReturn(file, alias, lex);
    if SeveralOdoo(file) {
      VirtualModuleRewritesOneReturn(file, alias, lex);
    } else {
      FinalReturnIsTopLevelReturn(file, lex);
      if FinalReturn(file, lex).None? {
        ArrowExport(file);
      }
    }
  }
}
