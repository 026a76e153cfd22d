/**
 * The JavaScript and Node.js string built-ins the plugin relies on:
 * `indexOf`, `lastIndexOf`, `substring` and the POSIX `path.extname`.
 * JavaScript strings are sequences of UTF-16 code units. The model writes
 * them as `seq<char>`, each `char` standing for one code unit; nothing
 * here depends on the alphabet.
 */
module JsString {

  /** `needle` occurs in `s` starting at index `i`. */
  predicate OccursAt(s: string, needle: string, i: int) {
    0 <= i && i + |needle| <= |s| && s[i..i + |needle|] == needle
  }

  ghost predicate Contains(s: string, needle: string) {
    exists i :: OccursAt(s, needle, i)
  }

  /** A one-character needle occurs exactly where that character stands. */
  lemma OccursAtChar(s: string, c: char, i: int)
    ensures OccursAt(s, [c], i) <==> 0 <= i < |s| && s[i] == c
  {
    if 0 <= i < |s| {
      assert s[i..i + 1] == [s[i]];
    }
  }

  /** `s.indexOf(needle, from)` for `from` within the string. */
  function IndexOfFrom(s: string, needle: string, from: nat): (r: int)
    decreases |s| - from
    ensures r == -1 || (from <= r && OccursAt(s, needle, r))
    ensures forall j :: from <= j && (r == -1 || j < r) ==> !OccursAt(s, needle, j)
  {
    if from + |needle| > |s| then -1
    else if s[from..from + |needle|] == needle then from
    else IndexOfFrom(s, needle, from + 1)
  }

  /** `s.indexOf(needle)`: the first occurrence, or -1 when there is none. */
  function IndexOf(s: string, needle: string): (r: int)
    ensures r == -1 || OccursAt(s, needle, r)
    ensures forall j :: 0 <= j && (r == -1 || j < r) ==> !OccursAt(s, needle, j)
    ensures r == -1 <==> !Contains(s, needle)
  {
    IndexOfFrom(s, needle, 0)
  }

  /** `s.lastIndexOf(needle, from)`: the last occurrence starting at or before `from`. */
  function LastIndexOfFrom(s: string, needle: string, from: int): (r: int)
    decreases from + 1
    ensures r == -1 || (r <= from && OccursAt(s, needle, r))
    ensures forall j :: j <= from && r < j ==> !OccursAt(s, needle, j)
  {
    if from < 0 then -1
    else if OccursAt(s, needle, from) then from
    else LastIndexOfFrom(s, needle, from - 1)
  }

  /** `s.lastIndexOf(needle)`: the last occurrence, or -1 when there is none. */
  function LastIndexOf(s: string, needle: string): (r: int)
    ensures r == -1 || OccursAt(s, needle, r)
    ensures forall j :: r < j ==> !OccursAt(s, needle, j)
    ensures r == -1 <==> !Contains(s, needle)
  {
    LastIndexOfFrom(s, needle, |s| - |needle|)
  }

  /** `lastIndexOf` of a one-character needle is -1 exactly when the character is absent. */
  lemma LastIndexOfAbsent(s: string, c: char)
    ensures LastIndexOf(s, [c]) == -1 <==> c !in s
  {
    var r := LastIndexOf(s, [c]);
    OccursAtChar(s, c, r);
    if c in s {
      var i :| 0 <= i < |s| && s[i] == c;
      OccursAtChar(s, c, i);
    }
  }

  /** The last place a character stands is what `lastIndexOf` finds. */
  lemma LastIndexOfChar(s: string, c: char, k: nat)
    requires k < |s| && s[k] == c
    requires forall j :: k < j < |s| ==> s[j] != c
    ensures LastIndexOf(s, [c]) == k
  {
    var r := LastIndexOf(s, [c]);
    OccursAtChar(s, c, k);
    OccursAtChar(s, c, r);
  }

  /** In `pre + [c] + tail` with no `c` in `tail`, the last `c` is the one after `pre`. */
  lemma LastIndexOfSeparator(pre: string, c: char, tail: string)
    requires c !in tail
    ensures LastIndexOf(pre + [c] + tail, [c]) == |pre|
  {
    var s := pre + [c] + tail;
    forall j | |pre| < j < |s| ensures s[j] != c {
      assert s[j] == tail[j - |pre| - 1];
    }
    LastIndexOfChar(s, c, |pre|);
  }

  /** In a string ending with `tail`, whose only `c` is its first character, the last `c` starts `tail`. */
  lemma LastIndexOfSuffix(s: string, c: char, tail: string)
    requires 0 < |tail| <= |s| && tail[0] == c && c !in tail[1..]
    requires s[|s| - |tail|..] == tail
    ensures LastIndexOf(s, [c]) == |s| - |tail|
  {
    var k := |s| - |tail|;
    forall j | k < j < |s| ensures s[j] != c {
      assert s[j] == tail[1..][j - k - 1];
    }
    LastIndexOfChar(s, c, k);
  }

  /** The first and the last occurrence differ exactly when the needle occurs twice. */
  lemma FirstAndLastDiffer(s: string, needle: string)
    ensures IndexOf(s, needle) != LastIndexOf(s, needle) <==>
            exists i, j :: i < j && OccursAt(s, needle, i) && OccursAt(s, needle, j)
  {
    var first, last := IndexOf(s, needle), LastIndexOf(s, needle);
    if first != last {
      assert first != -1 && last != -1;
      assert first < last;
    }
    if exists i, j :: i < j && OccursAt(s, needle, i) && OccursAt(s, needle, j) {
      var i, j :| i < j && OccursAt(s, needle, i) && OccursAt(s, needle, j);
      assert first <= i && j <= last;
    }
  }

  function Clamp(i: int, len: nat): (r: nat)
    ensures r <= len
  {
    if i < 0 then 0 else if i > len then len else i
  }

  /**
   * `s.substring(a, b)`: both ends are clamped to `[0, |s|]` and swapped
   * when the first exceeds the second.
   */
  function Substring(s: string, a: int, b: int): (r: string)
    ensures 0 <= a <= b <= |s| ==> r == s[a..b]
    ensures |r| <= if a <= b then b - a else a - b
  {
    var x, y := Clamp(a, |s|), Clamp(b, |s|);
    if x <= y then s[x..y] else s[y..x]
  }

  /** `s.substring(a)`: from `a` to the end. */
  function SubstringFrom(s: string, a: int): (r: string)
    ensures 0 <= a <= |s| ==> r == s[a..]
    ensures a < 0 ==> r == s
  {
    Substring(s, a, |s|)
  }

  function TrimTrailingSlashes(p: string): (r: string)
    ensures |r| <= |p| && r == p[..|r|]
    ensures r == [] || r[|r| - 1] != '/'
  {
    if |p| > 0 && p[|p| - 1] == '/' then TrimTrailingSlashes(p[..|p| - 1]) else p
  }

  /** The last path component, trailing separators ignored. */
  function Basename(p: string): (b: string)
    ensures '/' !in b
  {
    var q := TrimTrailingSlashes(p);
    var k := LastIndexOf(q, "/");
    var b := q[k + 1..];
    assert '/' !in b by {
      forall i | 0 <= i < |b| ensures b[i] != '/' {
        OccursAtChar(q, '/', k + 1 + i);
      }
    }
    b
  }

  /**
   * Node's POSIX `path.extname`: the last component's text from its last
   * `.` on, or "" when that component has no `.`, starts with its only `.`,
   * or is `..`.
   */
  function Extname(p: string): (e: string)
    ensures e == "" || (e[0] == '.' && '/' !in e && '.' !in e[1..])
  {
    var b := Basename(p);
    var d := LastIndexOf(b, ".");
    if d <= 0 || b == ".." then ""
    else
      var e := b[d..];
      assert '.' !in e[1..] by {
        forall i | 1 <= i < |e| ensures e[i] != '.' {
          OccursAtChar(b, '.', d + i);
        }
      }
      e
  }

  /**
   * The extension is the part of the last component from its last `.` on:
   * a proper suffix of that component, and "" exactly when the component is
   * `..` or has no `.` after its first character.
   */
  lemma ExtnameOfBasename(p: string)
    ensures var b, e := Basename(p), Extname(p);
            && (e == "" <==> b == ".." || forall i :: 0 < i < |b| ==> b[i] != '.')
            && (e != "" ==> |e| < |b| && b[|b| - |e|..] == e)
  {
    var b := Basename(p);
    var d := LastIndexOf(b, ".");
    LastIndexOfAbsent(b, '.');
    OccursAtChar(b, '.', d);
    if d == 0 {
      forall i | 0 < i < |b| ensures b[i] != '.' {
        OccursAtChar(b, '.', i);
      }
    }
  }
}
