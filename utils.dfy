/**
 * The small helpers of src/utils.ts: the half-open range test, the search
 * for the top-level statement at a position, the `quote` template joiner,
 * the `assert` guard and the `cached` memo wrapper.
 */
module Utils {
  import opened Wrappers

  /* ---------------------------------------------------------------------
   * inRange and findTopLevelStatement
   * --------------------------------------------------------------------- */

  /** `ts.TextRange`: a node's extent, `pos` inclusive and `end` exclusive. */
  datatype TextRange = TextRange(pos: int, end: int)

  /** `inRange(pos, node)` */
  predicate InRange(pos: int, node: TextRange): (b: bool)
    ensures b ==> node.pos < node.end
    ensures !b ==> pos < node.pos || node.end <= pos
  {
    pos >= node.pos && pos < node.end
  }

  /**
   * A source file's statements: each range is well formed and ends where
   * (or before) the next one starts.
   */
  predicate Ordered(statements: seq<TextRange>) {
    && (forall i :: 0 <= i < |statements| ==> statements[i].pos <= statements[i].end)
    && (forall i :: 0 <= i < |statements| - 1 ==> statements[i].end <= statements[i + 1].pos)
  }

  /** In ordered statements, a range ends no later than any later range starts. */
  lemma {:induction false} OrderedBefore(statements: seq<TextRange>, i: nat, j: nat)
    requires Ordered(statements) && i < j < |statements|
    ensures statements[i].end <= statements[j].pos
    decreases j - i
  {
    if i + 1 < j {
      OrderedBefore(statements, i + 1, j);
    }
  }

  /** Ordered statements are disjoint: at most one contains a given position. */
  lemma InRangeUnique(statements: seq<TextRange>, pos: int, i: nat, j: nat)
    requires Ordered(statements) && i < |statements| && j < |statements|
    requires InRange(pos, statements[i]) && InRange(pos, statements[j])
    ensures i == j
  {
    if i < j {
      OrderedBefore(statements, i, j);
    } else if j < i {
      OrderedBefore(statements, j, i);
    }
  }

  /**
   * `findTopLevelStatement(sourceFile, pos)`: the index of the first
   * statement whose range contains `pos`, or `None` (`undefined`) when no
   * statement does.
   */
  method FindTopLevelStatement(statements: seq<TextRange>, pos: int) returns (r: Option<nat>)
    ensures r.Some? ==> r.value < |statements| && InRange(pos, statements[r.value])
    ensures r.Some? ==> forall j :: 0 <= j < r.value ==> !InRange(pos, statements[j])
    ensures r.None? <==> forall j :: 0 <= j < |statements| ==> !InRange(pos, statements[j])
    ensures r.Some? && Ordered(statements) ==>
              forall j :: 0 <= j < |statements| && InRange(pos, statements[j]) ==> j == r.value
  {
    var i := 0;
    while i < |statements|
      invariant 0 <= i <= |statements|
      invariant forall j :: 0 <= j < i ==> !InRange(pos, statements[j])
    {
      if InRange(pos, statements[i]) {
        if Ordered(statements) {
          forall j | 0 <= j < |statements| && InRange(pos, statements[j]) ensures j == i {
            InRangeUnique(statements, pos, i, j);
          }
        }
        return Some(i);
      }
      i := i + 1;
    }
    return None;
  }

  /* ---------------------------------------------------------------------
   * quote
   * --------------------------------------------------------------------- */

  /**
   * A value interpolated into a `quote` template: a falsy value, a node
   * (an object with `getText`), or any other value with its string form.
   */
  datatype Substitution = Falsy | Node(text: string) | Value(shown: string)

  /** How `quote` renders one substitution; a falsy token becomes `""`. */
  function Render(t: Substitution): string {
    match t
    case Falsy => ""
    case Node(text) => text
    case Value(shown) => shown
  }

  /** `Array.prototype.join("")` */
  function Join(parts: seq<string>): string {
    if parts == [] then "" else parts[0] + Join(parts[1..])
  }

  lemma {:induction false} JoinAppend(parts: seq<string>, x: string)
    ensures Join(parts + [x]) == Join(parts) + x
  {
    if parts != [] {
      assert (parts + [x])[1..] == parts[1..] + [x];
      JoinAppend(parts[1..], x);
    }
  }

  /**
   * The text `quote` is meant to produce: each literal piece followed by
   * the substitution of the same index, in the original order; tokens
   * beyond the pieces are dropped.
   */
  function Interleave(strings: seq<string>, tokens: seq<Substitution>): string {
    if strings == [] then ""
    else
      strings[0] + (if tokens == [] then "" else Render(tokens[0]))
        + Interleave(strings[1..], if tokens == [] then [] else tokens[1..])
  }

  /** Interleaving one more piece appends that piece and its substitution. */
  lemma {:induction false} InterleaveAppend(strings: seq<string>, tokens: seq<Substitution>, x: string)
    ensures Interleave(strings + [x], tokens)
         == Interleave(strings, tokens) + x + (if |strings| < |tokens| then Render(tokens[|strings|]) else "")
  {
    if strings != [] {
      assert (strings + [x])[1..] == strings[1..] + [x];
      InterleaveAppend(strings[1..], if tokens == [] then [] else tokens[1..], x);
    }
  }

  /** With no tokens, `quote` is the concatenation of its pieces. */
  lemma {:induction false} InterleaveWithoutTokens(strings: seq<string>)
    ensures Interleave(strings, []) == Join(strings)
  {
    if strings != [] {
      InterleaveWithoutTokens(strings[1..]);
    }
  }

  /** `Array.prototype.reverse` */
  function Reversed<T>(s: seq<T>): (r: seq<T>)
    ensures |r| == |s|
  {
    if s == [] then [] else Reversed(s[1..]) + [s[0]]
  }

  /** The element at `k` of the reversed sequence is the one `k` places from the end. */
  lemma {:induction false} ReversedAt<T>(s: seq<T>, k: nat)
    requires k < |s|
    ensures Reversed(s)[k] == s[|s| - 1 - k]
  {
    if k < |s| - 1 {
      ReversedAt(s[1..], k);
    }
  }

  /**
   * `quote(strings, ...tokens)`: reverse the tokens, then for each piece
   * push it and, while tokens remain, pop the next token and push its
   * rendering; finally join.
   */
  method Quote(strings: seq<string>, tokens: seq<Substitution>) returns (r: string)
    ensures r == Interleave(strings, tokens)
  {
    var stack := Reversed(tokens);
    var ret: seq<string> := [];
    for i := 0 to |strings|
      invariant stack == Reversed(tokens[if i < |tokens| then i else |tokens|..])
      invariant Join(ret) == Interleave(strings[..i], tokens)
    {
      JoinAppend(ret, strings[i]);
      InterleaveAppend(strings[..i], tokens, strings[i]);
      assert strings[..i + 1] == strings[..i] + [strings[i]];
      ret := ret + [strings[i]];
      if |stack| == 0 {
        continue;
      }
      var token := stack[|stack| - 1];
      stack := stack[..|stack| - 1];
      assert tokens[i..] == [tokens[i]] + tokens[i + 1..];
      JoinAppend(ret, Render(token));
      ret := ret + [Render(token)];
    }
    assert strings[..|strings|] == strings;
    return Join(ret);
  }

  /* ---------------------------------------------------------------------
   * assert
   * --------------------------------------------------------------------- */

  /** The first argument of `assert`: one type guard or an array of them. */
  datatype Matcher<-T> = One(guard: T -> bool) | AnyOf(guards: seq<T -> bool>)

  /** How a call of `assert` ends. */
  datatype Outcome = Returned | Threw(message: string)

  /** `Array.prototype.some` over the guards. */
  function AnyAccepts<T>(guards: seq<T -> bool>, value: T): (b: bool)
    ensures b <==> exists i :: 0 <= i < |guards| && guards[i](value)
  {
    if guards == [] then false
    else if guards[0](value) then true
    else
      var b := AnyAccepts(guards[1..], value);
      assert forall i :: 1 <= i < |guards| ==> guards[i] == guards[1..][i - 1];
      b
  }

  /**
   * `assert(matcher, value)`: throws "Assertion error" exactly when the
   * guard rejects the value, or, for an array, when no guard in it accepts
   * it; returns normally otherwise.
   */
  function Assert<T>(matcher: Matcher<T>, value: T): (o: Outcome)
    ensures matcher.One? ==> (o == Returned <==> matcher.guard(value))
    ensures matcher.AnyOf? ==> (o == Returned <==> exists i :: 0 <= i < |matcher.guards| && matcher.guards[i](value))
    ensures o.Threw? ==> o.message == "Assertion error"
  {
    var condition := match matcher
      case One(guard) => guard(value)
      case AnyOf(guards) => AnyAccepts(guards, value);
    if !condition then Threw("Assertion error") else Returned
  }

  /* ---------------------------------------------------------------------
   * cached
   * --------------------------------------------------------------------- */

  /**
   * The closure state of `cached(func)`: the memo table and the hit and
   * miss counters. `calls` records every call made through the wrapper.
   */
  class Memo<A(==), R> {
    const func: A -> R
    var table: map<A, R>
    var hits: nat
    var misses: nat
    ghost var calls: seq<A>

    /** Every memoised result is `func`'s result, and every call was counted once. */
    ghost predicate Valid()
      reads this
    {
      && (forall a :: a in table ==> table[a] == func(a))
      && hits + misses == |calls|
    }

    constructor (func: A -> R)
      ensures Valid() && this.func == func
      ensures table == map[] && hits == 0 && misses == 0 && calls == []
    {
      this.func := func;
      table := map[];
      hits, misses := 0, 0;
      calls := [];
    }

    /** `wrapped(...args)` */
    method Call(args: A) returns (r: R)
      requires Valid()
      modifies this
      ensures Valid() && r == func(args) && calls == old(calls) + [args]
      ensures old(args in table) ==> hits == old(hits) + 1 && misses == old(misses) && table == old(table)
      ensures old(args !in table) ==> misses == old(misses) + 1 && hits == old(hits) && table == old(table)[args := r]
    {
      calls := calls + [args];
      if args in table {
        hits := hits + 1;
        r := table[args];
      } else {
        misses := misses + 1;
        table := table[args := func(args)];
        r := table[args];
      }
    }

    /** `wrapped.reset()`: a fresh, empty table; the counters carry on. */
    method Reset()
      requires Valid()
      modifies this`table
      ensures Valid() && table == map[]
    {
      table := map[];
    }

    /** `wrapped.report()` */
    function Report(): (counts: (nat, nat))
      reads this
      requires Valid()
      ensures counts.0 + counts.1 == |calls|
    {
      (hits, misses)
    }
  }
}
