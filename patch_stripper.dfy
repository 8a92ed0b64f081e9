/**
 * The commit-patch stripper of `analyze_commit_integrated`: one pass over the
 * lines of a git patch that drops structural lines inside diff blocks and caps
 * the result at a byte budget.
 *
 * The patch arrives as its sequence of lines (the HTTP fetch and the splitting
 * into lines happen before this point). The specification is declarative:
 * `Kept` says which lines the diff filter emits, `FirstOverflow` says where the
 * cap strikes, and `Stripped` puts the two together. `StripPatch` is the loop,
 * proved equal to `Stripped`.
 */
module PatchStripper {
  import opened Text

  /** The byte budget of the stripped patch. */
  const MaxPatchLength: nat := 18_000

  /** Arithmetic on `usize` wraps modulo 2^64 (release builds, 64-bit target). */
  const UsizeModulus: int := 0x1_0000_0000_0000_0000

  /** `a - b` on `usize`, where it wraps around instead of going negative. */
  function UsizeSub(a: nat, b: nat): (r: nat)
    requires a < UsizeModulus && b < UsizeModulus
    ensures r < UsizeModulus
    ensures (r + b - a) % UsizeModulus == 0
    ensures b <= a ==> r == a - b
  {
    if b <= a then a - b else a - b + UsizeModulus
  }

  predicate IsDiffHeader(line: string) { |line| >= 10 && line[..10] == "diff --git" }

  predicate HasBracket(line: string) { '[' in line || ']' in line || '{' in line || '}' in line }

  /** What one line does to the filter: whether it is emitted, and whether a diff block is open after it. */
  datatype Step = Step(emit: bool, inside: bool)

  function FilterStep(inside: bool, line: string): Step
  {
    if IsDiffHeader(line) then Step(true, true)
    else if inside && HasBracket(line) then Step(false, true)
    else Step(true, if line == "" then false else inside)
  }

  /** Whether a diff block is open after the filter has seen `lines` (none is open at the start). */
  function InsideAfter(lines: seq<string>): bool
  {
    if lines == [] then false
    else FilterStep(InsideAfter(lines[..|lines| - 1]), lines[|lines| - 1]).inside
  }

  /** The lines the diff filter emits, in input order. */
  function Kept(lines: seq<string>): (kept: seq<string>)
    ensures |kept| <= |lines|
  {
    if lines == [] then []
    else
      var init := lines[..|lines| - 1];
      var last := lines[|lines| - 1];
      Kept(init) + (if FilterStep(InsideAfter(init), last).emit then [last] else [])
  }

  /** Each emitted line followed by a newline. */
  function Render(ls: seq<string>): string
  {
    if ls == [] then "" else Render(ls[..|ls| - 1]) + ls[|ls| - 1] + "\n"
  }

  /** The text accumulated before line `j` is looked at, had the cap not struck yet. */
  function Head(lines: seq<string>, j: nat): string
    requires j <= |lines|
  {
    Render(Kept(lines[..j]))
  }

  /**
   * Whether line `j` trips the cap. `reserve` is the number of extra bytes the
   * check accounts for: 0 as the source is written, 1 to count the newline.
   */
  predicate Overflows(lines: seq<string>, j: nat, max: nat, reserve: nat)
    requires j < |lines|
  {
    ByteLen(Head(lines, j)) + ByteLen(lines[j]) + reserve > max
  }

  /** The first line at or after `from` that trips the cap, or `|lines|` when none does. */
  function FirstOverflowFrom(lines: seq<string>, from: nat, max: nat, reserve: nat): (k: nat)
    requires from <= |lines|
    ensures from <= k <= |lines|
    ensures forall j :: from <= j < k ==> !Overflows(lines, j, max, reserve)
    ensures k < |lines| ==> Overflows(lines, k, max, reserve)
    decreases |lines| - from
  {
    if from == |lines| then from
    else if Overflows(lines, from, max, reserve) then from
    else FirstOverflowFrom(lines, from + 1, max, reserve)
  }

  function FirstOverflow(lines: seq<string>, max: nat, reserve: nat): (k: nat)
    ensures k <= |lines|
    ensures forall j :: 0 <= j < k ==> !Overflows(lines, j, max, reserve)
    ensures k < |lines| ==> Overflows(lines, k, max, reserve)
  {
    FirstOverflowFrom(lines, 0, max, reserve)
  }

  /**
   * The stripped patch as the source computes it: the rendered kept lines
   * before the first line that trips the cap, then as many characters of that
   * line as the `usize` difference `max - len` allows, and nothing after.
   */
  function Stripped(lines: seq<string>, max: nat): string
    requires max + 1 < UsizeModulus
  {
    var k := FirstOverflow(lines, max, 0);
    if k == |lines| then Head(lines, k)
    else
      HeadBounded(lines, max, 0, k);
      CutAt(lines, max, k)
  }

  /** The head before line `k`, then as many characters of line `k` as `max - len` allows in `usize`. */
  function CutAt(lines: seq<string>, max: nat, k: nat): string
    requires k < |lines| && max < UsizeModulus && ByteLen(Head(lines, k)) < UsizeModulus
  {
    Head(lines, k) + TakeChars(lines[k], UsizeSub(max, ByteLen(Head(lines, k))))
  }

  /** The loop of `analyze_commit_integrated`, over the lines of the fetched patch. */
  method StripPatch(lines: seq<string>) returns (stripped: string)
    ensures stripped == Stripped(lines, MaxPatchLength)
  {
    stripped := "";
    var insideDiffBlock := false;
    var i := 0;
    while i < |lines|
      invariant i <= FirstOverflow(lines, MaxPatchLength, 0)
      invariant stripped == Head(lines, i)
      invariant insideDiffBlock == InsideAfter(lines[..i])
    {
      var line := lines[i];
      LoopStep(lines, i);
      if ByteLen(stripped) + ByteLen(line) > MaxPatchLength {
        CapStrikesAt(lines, MaxPatchLength, i);
        var remaining := UsizeSub(MaxPatchLength, ByteLen(stripped));
        stripped := stripped + TakeChars(line, remaining);
        return;
      }
      CapPassesOver(lines, MaxPatchLength, i);
      if IsDiffHeader(line) {
        insideDiffBlock := true;
        stripped := stripped + line + "\n";
      } else if insideDiffBlock && HasBracket(line) {
        // a structural line inside a diff block is dropped
      } else {
        stripped := stripped + line + "\n";
        if line == "" {
          insideDiffBlock := false;
        }
      }
      i := i + 1;
    }
    CapNeverStrikes(lines, MaxPatchLength);
  }

  /** One line of the loop, by the branch the source takes for it. */
  lemma LoopStep(lines: seq<string>, i: nat)
    requires i < |lines|
    ensures var inside, line := InsideAfter(lines[..i]), lines[i];
      && (IsDiffHeader(line) ==>
            InsideAfter(lines[..i + 1]) && Head(lines, i + 1) == Head(lines, i) + line + "\n")
      && (!IsDiffHeader(line) && inside && HasBracket(line) ==>
            InsideAfter(lines[..i + 1]) && Head(lines, i + 1) == Head(lines, i))
      && (!IsDiffHeader(line) && !(inside && HasBracket(line)) ==>
            InsideAfter(lines[..i + 1]) == (inside && line != "") && Head(lines, i + 1) == Head(lines, i) + line + "\n")
  {
    HeadStep(lines, i);
  }

  /** A line reached before the cap strikes that does not trip it: the cap strikes later, if at all. */
  lemma CapPassesOver(lines: seq<string>, max: nat, i: nat)
    requires i < |lines| && i <= FirstOverflow(lines, max, 0)
    requires ByteLen(Head(lines, i)) + ByteLen(lines[i]) <= max
    ensures i + 1 <= FirstOverflow(lines, max, 0)
  {
  }

  /** Where the first line trips the cap, the stripped patch is the head and a cut of that line. */
  lemma CapStrikesAt(lines: seq<string>, max: nat, k: nat)
    requires max + 1 < UsizeModulus && k < |lines| && k <= FirstOverflow(lines, max, 0)
    requires ByteLen(Head(lines, k)) + ByteLen(lines[k]) > max
    ensures ByteLen(Head(lines, k)) <= max + 1
    ensures Stripped(lines, max) == CutAt(lines, max, k)
  {
    assert Overflows(lines, k, max, 0);
    FirstOverflowAt(lines, max, k);
    HeadBounded(lines, max, 0, k);
  }

  lemma FirstOverflowAt(lines: seq<string>, max: nat, k: nat)
    requires k < |lines| && k <= FirstOverflow(lines, max, 0) && Overflows(lines, k, max, 0)
    ensures FirstOverflow(lines, max, 0) == k
  {
  }

  /** When no line trips the cap, the stripped patch is every kept line rendered. */
  lemma CapNeverStrikes(lines: seq<string>, max: nat)
    requires max + 1 < UsizeModulus
    requires FirstOverflow(lines, max, 0) == |lines|
    ensures Stripped(lines, max) == Render(Kept(lines))
  {
    assert lines[..|lines|] == lines;
  }

  // ---------------------------------------------------------------------
  // Lemmas about the rendering

  lemma RenderAppend(ls: seq<string>, l: string)
    ensures Render(ls + [l]) == Render(ls) + l + "\n"
    ensures ByteLen(Render(ls + [l])) == ByteLen(Render(ls)) + ByteLen(l) + 1
  {
    assert (ls + [l])[..|ls|] == ls;
    ByteLenConcat(Render(ls) + l, "\n");
    ByteLenConcat(Render(ls), l);
  }

  /** The first line that trips the cap is the only line with nothing tripping it before. */
  lemma FirstOverflowUnique(lines: seq<string>, max: nat, reserve: nat, k: nat)
    requires k <= |lines|
    requires forall j :: 0 <= j < k ==> !Overflows(lines, j, max, reserve)
    requires k < |lines| ==> Overflows(lines, k, max, reserve)
    ensures FirstOverflow(lines, max, reserve) == k
  {
  }

  /**
   * Until the cap strikes, the accumulated text exceeds `max` by at most the
   * one newline the check does not account for.
   */
  lemma HeadBounded(lines: seq<string>, max: nat, reserve: nat, k: nat)
    requires reserve <= 1 && k <= |lines|
    requires forall j :: 0 <= j < k ==> !Overflows(lines, j, max, reserve)
    ensures ByteLen(Head(lines, k)) <= max + 1 - reserve
  {
    if k > 0 {
      HeadStepBytes(lines, k - 1);
      assert !Overflows(lines, k - 1, max, reserve);
    } else {
      assert lines[..0] == [];
    }
  }

  /** One line adds at most its own bytes and a newline to the head. */
  lemma HeadStepBytes(lines: seq<string>, j: nat)
    requires j < |lines|
    ensures ByteLen(Head(lines, j + 1)) <= ByteLen(Head(lines, j)) + ByteLen(lines[j]) + 1
  {
    HeadStep(lines, j);
  }

  /** One line moves the head on by itself and a newline, or not at all. */
  lemma HeadStep(lines: seq<string>, j: nat)
    requires j < |lines|
    ensures InsideAfter(lines[..j + 1]) == FilterStep(InsideAfter(lines[..j]), lines[j]).inside
    ensures Head(lines, j + 1) ==
      if FilterStep(InsideAfter(lines[..j]), lines[j]).emit then Head(lines, j) + lines[j] + "\n"
      else Head(lines, j)
    ensures ByteLen(Head(lines, j + 1)) <= ByteLen(Head(lines, j)) + ByteLen(lines[j]) + 1
  {
    var pre := lines[..j];
    assert lines[..j + 1][..j] == pre;
    var st := FilterStep(InsideAfter(pre), lines[j]);
    assert Kept(lines[..j + 1]) == Kept(pre) + (if st.emit then [lines[j]] else []);
    if st.emit {
      RenderAppend(Kept(pre), lines[j]);
    } else {
      assert Kept(pre) + [] == Kept(pre);
    }
  }

  // ---------------------------------------------------------------------
  // The diff filter, stated without the state machine

  /** A diff block is open before line `j`: some earlier `diff --git` line with no empty line after it. */
  predicate OpenBlock(lines: seq<string>, j: nat)
    requires j <= |lines|
  {
    exists h :: 0 <= h < j && OpenedAt(lines, h, j)
  }

  /** Line `h` is a header, and no line after it and before line `j` is empty. */
  predicate OpenedAt(lines: seq<string>, h: int, j: nat)
    requires j <= |lines|
  {
    0 <= h < j && IsDiffHeader(lines[h]) && forall m :: h < m < j ==> lines[m] != ""
  }

  /** Line `j` survives the filter: a header, a line without brackets, or a line outside every diff block. */
  predicate Emitted(lines: seq<string>, j: nat)
    requires j < |lines|
  {
    IsDiffHeader(lines[j]) || !HasBracket(lines[j]) || !OpenBlock(lines, j)
  }

  /** The filter's one boolean is exactly "a diff block is open". */
  lemma {:induction false} InsideIffOpenBlock(lines: seq<string>, j: nat)
    requires j <= |lines|
    ensures InsideAfter(lines[..j]) <==> OpenBlock(lines, j)
  {
    if j == 0 {
      assert lines[..0] == [];
    } else {
      InsideIffOpenBlock(lines, j - 1);
      InsideStep(lines, j - 1);
      if IsDiffHeader(lines[j - 1]) {
        assert OpenedAt(lines, j - 1, j);
      } else if lines[j - 1] == "" {
        OpenBlockClosedByEmpty(lines, j - 1);
      } else {
        OpenBlockKeptByOther(lines, j - 1);
      }
    }
  }

  lemma InsideStep(lines: seq<string>, j: nat)
    requires j < |lines|
    ensures InsideAfter(lines[..j + 1]) == FilterStep(InsideAfter(lines[..j]), lines[j]).inside
  {
    assert lines[..j + 1][..j] == lines[..j];
  }

  lemma OpenBlockClosedByEmpty(lines: seq<string>, j: nat)
    requires j < |lines| && lines[j] == ""
    ensures !OpenBlock(lines, j + 1)
  {
  }

  lemma OpenBlockKeptByOther(lines: seq<string>, j: nat)
    requires j < |lines| && lines[j] != "" && !IsDiffHeader(lines[j])
    ensures OpenBlock(lines, j + 1) == OpenBlock(lines, j)
  {
    if OpenBlock(lines, j + 1) {
      var h :| 0 <= h < j + 1 && OpenedAt(lines, h, j + 1);
      assert IsDiffHeader(lines[h]);
      assert h != j;
      assert OpenedAt(lines, h, j);
    }
    if OpenBlock(lines, j) {
      var h :| 0 <= h < j && OpenedAt(lines, h, j);
      forall m | h < m < j + 1 ensures lines[m] != "" {
        if m < j {
          assert OpenedAt(lines, h, j);
        }
      }
      assert OpenedAt(lines, h, j + 1);
    }
  }

  /**
   * The filter emits line `j`, followed by a newline, exactly when it is a
   * header, has none of `[ ] { }`, or lies outside every diff block.
   */
  lemma FilterEmitsIff(lines: seq<string>, j: nat)
    requires j < |lines|
    ensures Kept(lines[..j + 1]) == Kept(lines[..j]) + (if Emitted(lines, j) then [lines[j]] else [])
    ensures Head(lines, j + 1) == if Emitted(lines, j) then Head(lines, j) + lines[j] + "\n" else Head(lines, j)
  {
    InsideIffOpenBlock(lines, j);
    HeadStep(lines, j);
    assert lines[..j + 1][..j] == lines[..j];
  }

  /** Outside diff blocks nothing is dropped: a patch without headers passes whole. */
  lemma {:induction false} KeptWithoutHeaders(lines: seq<string>)
    requires forall j :: 0 <= j < |lines| ==> !IsDiffHeader(lines[j])
    ensures !InsideAfter(lines)
    ensures Kept(lines) == lines
  {
    if lines != [] {
      var init := lines[..|lines| - 1];
      KeptWithoutHeaders(init);
      assert init + [lines[|lines| - 1]] == lines;
    }
  }

  // ---------------------------------------------------------------------
  // The cap

  /** The emitted text is no longer than the input rendered in full. */
  lemma {:induction false} KeptNoLonger(xs: seq<string>)
    ensures ByteLen(Render(Kept(xs))) <= ByteLen(Render(xs))
  {
    if xs != [] {
      var init, last := xs[..|xs| - 1], xs[|xs| - 1];
      KeptNoLonger(init);
      assert xs == init + [last];
      RenderAppend(init, last);
      assert ByteLen(Render(xs)) == ByteLen(Render(init)) + ByteLen(last) + 1;
      if FilterStep(InsideAfter(init), last).emit {
        RenderAppend(Kept(init), last);
      } else {
        assert Kept(xs) == Kept(init) + [];
        assert Kept(xs) == Kept(init);
      }
    }
  }

  /** The emitted text of a prefix is no longer than the prefix rendered in full. */
  lemma HeadNoLonger(lines: seq<string>, j: nat)
    requires j <= |lines|
    ensures ByteLen(Head(lines, j)) <= ByteLen(Render(lines[..j]))
  {
    KeptNoLonger(lines[..j]);
  }

  /** Rendering one more line of a prefix adds that line's bytes and a newline. */
  lemma RenderPrefixStep(lines: seq<string>, j: nat)
    requires j < |lines|
    ensures ByteLen(Render(lines[..j + 1])) == ByteLen(Render(lines[..j])) + ByteLen(lines[j]) + 1
  {
    assert lines[..j + 1] == lines[..j] + [lines[j]];
    RenderAppend(lines[..j], lines[j]);
  }

  lemma {:induction false} RenderPrefixNoLonger(lines: seq<string>, j: nat)
    requires j <= |lines|
    ensures ByteLen(Render(lines[..j])) <= ByteLen(Render(lines))
    decreases |lines| - j
  {
    if j < |lines| {
      RenderPrefixNoLonger(lines, j + 1);
      RenderPrefixStep(lines, j);
    } else {
      assert lines[..j] == lines;
    }
  }

  /** A patch that fits with all its newlines never trips the cap, whether or not the check counts the newline. */
  lemma NoOverflowWhenShort(lines: seq<string>, max: nat, reserve: nat)
    requires reserve <= 1
    requires ByteLen(Render(lines)) <= max
    ensures FirstOverflow(lines, max, reserve) == |lines|
  {
    forall j | 0 <= j < |lines| ensures !Overflows(lines, j, max, reserve) {
      LineFitsInRender(lines, j);
    }
    FirstOverflowUnique(lines, max, reserve, |lines|);
  }

  lemma LineFitsInRender(lines: seq<string>, j: nat)
    requires j < |lines|
    ensures ByteLen(Head(lines, j)) + ByteLen(lines[j]) + 1 <= ByteLen(Render(lines))
  {
    HeadNoLonger(lines, j);
    RenderPrefixStep(lines, j);
    RenderPrefixNoLonger(lines, j + 1);
  }

  /** A patch that fits is only filtered, never cut. */
  lemma StrippedWhenShort(lines: seq<string>, max: nat)
    requires max + 1 < UsizeModulus
    requires ByteLen(Render(lines)) <= max
    ensures Stripped(lines, max) == Render(Kept(lines))
  {
    NoOverflowWhenShort(lines, max, 0);
    assert lines[..|lines|] == lines;
  }

  /** Once the cap strikes nothing later is emitted: lines after it change nothing. */
  lemma CapIsFinal(lines: seq<string>, more: seq<string>, max: nat)
    requires max + 1 < UsizeModulus
    requires FirstOverflow(lines, max, 0) < |lines|
    ensures Stripped(lines + more, max) == Stripped(lines, max)
  {
    var all := lines + more;
    var k := FirstOverflow(lines, max, 0);
    forall j | 0 <= j <= |lines| ensures Head(all, j) == Head(lines, j) {
      assert all[..j] == lines[..j];
    }
    forall j | 0 <= j < |lines| ensures Overflows(all, j, max, 0) == Overflows(lines, j, max, 0) {
      assert all[j] == lines[j];
    }
    FirstOverflowUnique(all, max, 0, k);
  }

  /**
   * The cap is checked before the filter: a line inside a diff block that the
   * filter would drop is still cut into the output when it trips the cap.
   */
  lemma DroppedLineTripsCap(header: string, line: string, max: nat)
    requires max + 1 < UsizeModulus
    requires IsDiffHeader(header) && !IsDiffHeader(line) && HasBracket(line)
    requires ByteLen(header) < max < ByteLen(header) + 1 + ByteLen(line)
    ensures !Emitted([header, line], 1)
    ensures Stripped([header, line], max) == header + "\n" + TakeChars(line, max - ByteLen(header) - 1)
  {
    var lines := [header, line];
    assert OpenedAt(lines, 0, 1);
    HeadOfFirst(lines);
    CapPassesOver(lines, max, 0);
    CapStrikesAt(lines, max, 1);
  }

  /** The first line is always emitted: no diff block is open before it. */
  lemma HeadOfFirst(lines: seq<string>)
    requires |lines| > 0
    ensures Head(lines, 0) == ""
    ensures Head(lines, 1) == lines[0] + "\n"
    ensures ByteLen(Head(lines, 1)) == ByteLen(lines[0]) + 1
  {
    assert lines[..0] == [];
    HeadStep(lines, 0);
    assert Head(lines, 1) == "" + lines[0] + "\n";
    assert "" + lines[0] == lines[0];
    ByteLenConcat(lines[0], "\n");
  }

  // ---------------------------------------------------------------------
  // The subtraction `max_length - stripped_texts.len()`

  /**
   * As written, the check ignores the newline pushed after each line, so a
   * line that fills the budget exactly leaves the text one byte over it. The
   * next line then makes `max - len` negative: `usize` wraps (a debug build
   * panics instead), the whole line is appended, and the cap is exceeded.
   */
  lemma UnderflowAfterExactFill(first: string, next: string, max: nat)
    requires max + 1 < UsizeModulus && |next| < UsizeModulus - 1
    requires ByteLen(first) == max
    ensures ByteLen(Head([first, next], 1)) == max + 1
    ensures Stripped([first, next], max) == first + "\n" + next
    ensures ByteLen(Stripped([first, next], max)) == max + 1 + ByteLen(next)
  {
    var lines := [first, next];
    HeadOfFirst(lines);
    CapPassesOver(lines, max, 0);
    CapStrikesAt(lines, max, 1);
    assert UsizeSub(max, max + 1) == UsizeModulus - 1;
    assert TakeChars(next, UsizeModulus - 1) == next;
    ByteLenConcat(first + "\n", next);
  }

  /**
   * Even with no line after it, a last line that fills the budget exactly is
   * kept with its newline: the output ends one byte over the budget.
   */
  lemma ExactFillAtEnd(line: string, max: nat)
    requires max + 1 < UsizeModulus
    requires ByteLen(line) == max
    ensures Stripped([line], max) == line + "\n"
    ensures ByteLen(Stripped([line], max)) == max + 1
  {
    var lines := [line];
    HeadOfFirst(lines);
    CapPassesOver(lines, max, 0);
    CapNeverStrikes(lines, max);
    assert lines[..1] == lines;
  }

  /** A concrete patch: one line of 18000 ASCII bytes comes out as 18001 bytes. */
  lemma ExactFillExample()
    ensures ByteLen(Stripped([Repeat('a', MaxPatchLength)], MaxPatchLength)) == MaxPatchLength + 1
  {
    RepeatByteLen('a', MaxPatchLength);
    ExactFillAtEnd(Repeat('a', MaxPatchLength), MaxPatchLength);
  }

  /** A concrete patch: 18000 ASCII bytes on the first line, then the line "b". */
  lemma UnderflowExample()
    ensures ByteLen(Stripped([seq(MaxPatchLength, _ => 'a'), "b"], MaxPatchLength)) == MaxPatchLength + 2
  {
    var first: string := seq(MaxPatchLength, _ => 'a');
    assert IsAscii(first);
    AsciiByteLen(first);
    UnderflowAfterExactFill(first, "b", MaxPatchLength);
  }

  /**
   * As written, the check counts bytes but the cut counts characters: a line
   * of multi-byte characters that trips the check is cut to `max - len`
   * characters, up to four times as many bytes. A first line of 18001
   * two-byte characters is cut to 18000 of them, 36000 bytes.
   */
  lemma MultiByteCutExample()
    ensures ByteLen(Stripped([Repeat('\U{E9}', MaxPatchLength + 1)], MaxPatchLength)) == 2 * MaxPatchLength
  {
    var line := Repeat('\U{E9}', MaxPatchLength + 1);
    var lines := [line];
    HeadOfFirst(lines);
    assert Utf8Width('\U{E9}') == 2;
    RepeatByteLen('\U{E9}', MaxPatchLength + 1);
    CapStrikesAt(lines, MaxPatchLength, 0);
    assert UsizeSub(MaxPatchLength, ByteLen(Head(lines, 0))) == MaxPatchLength;
    var cut := TakeChars(line, MaxPatchLength);
    assert Stripped(lines, MaxPatchLength) == "" + cut == cut;
    assert cut == Repeat('\U{E9}', MaxPatchLength);
    RepeatByteLen('\U{E9}', MaxPatchLength);
  }

  /**
   * The evidently intended stripper: the check also counts the newline, so
   * the accumulated text never exceeds the budget and `max - len` never goes
   * below zero, and the last line is cut to the bytes that remain rather
   * than to that many characters.
   */
  function StrippedFixed(lines: seq<string>, max: nat): string
  {
    var k := FirstOverflow(lines, max, 1);
    HeadBounded(lines, max, 1, k);
    if k == |lines| then Head(lines, k) else FixedCut(Head(lines, k), lines[k], max)
  }

  /** Text within budget, followed by the line cut to the bytes that remain: still within budget. */
  function FixedCut(head: string, line: string, max: nat): (r: string)
    requires ByteLen(head) <= max
    ensures head <= r && ByteLen(r) <= max
  {
    var tail := TakeBytes(line, max - ByteLen(head));
    ByteLenConcat(head, tail);
    head + tail
  }

  /** The corrected stripper keeps the cap: at most `max` bytes, hence at most `max` characters. */
  lemma FixedStrippedWithinCap(lines: seq<string>, max: nat)
    ensures ByteLen(StrippedFixed(lines, max)) <= max
    ensures |StrippedFixed(lines, max)| <= max
  {
    HeadBounded(lines, max, 1, FirstOverflow(lines, max, 1));
  }

  /** On a patch that fits, the correction changes nothing. */
  lemma FixedAgreesWhenShort(lines: seq<string>, max: nat)
    requires max + 1 < UsizeModulus
    requires ByteLen(Render(lines)) <= max
    ensures StrippedFixed(lines, max) == Stripped(lines, max) == Render(Kept(lines))
  {
    NoOverflowWhenShort(lines, max, 0);
    NoOverflowWhenShort(lines, max, 1);
    assert lines[..|lines|] == lines;
  }
}
