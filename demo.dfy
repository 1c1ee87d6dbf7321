/** The demo program: two formatters that draw words from the entropy
    primitive and print them, and `main`, which runs them over a fixed table
    of counts between two cycle-counter readings. */
module Demo {
  import opened BoundedInts
  import Hex
  import Password
  import Ticks

  /** The register-save area the entropy primitive works in
      (`jytter_scratch_space_t`): five 64-bit slots the caller never reads. */
  class ScratchSpace {
    var callerRcx: u64
    var callerRdx: u64
    var callerRbx: u64
    var callerRbp: u64
    var callerRsi: u64
  }

  /** The `n` words drawn from the stream `entropy` starting at draw number
      `from`, in draw order. */
  function Draws(entropy: nat -> u32, from: nat, n: nat): (ws: seq<u32>)
    ensures |ws| == n
    decreases n, from
  {
    if n == 0 then [] else Draws(entropy, from, n - 1) + [entropy(from + n - 1)]
  }

  /** Word `i` of a run of draws is draw number `from + i` of the stream. */
  lemma {:induction false} DrawsAt(entropy: nat -> u32, from: nat, n: nat, i: nat)
    requires i < n
    ensures Draws(entropy, from, n)[i] == entropy(from + i)
  {
    if i < n - 1 {
      DrawsAt(entropy, from, n - 1, i);
    }
  }

  /** Two consecutive runs of draws are one run: a call that draws `m` words
      after one that drew `n` continues the stream where it stopped. */
  lemma {:induction false} DrawsSplit(entropy: nat -> u32, from: nat, n: nat, m: nat)
    ensures Draws(entropy, from, n + m) == Draws(entropy, from, n) + Draws(entropy, from + n, m)
  {
    if m > 0 {
      DrawsSplit(entropy, from, n, m - 1);
    }
  }

  /** Printing the next draw after the text of the first `k` draws gives
      the text of the first `k + 1` draws. */
  lemma HexPrintStep(entropy: nat -> u32, out: string, from: nat, k: nat)
    ensures out + Hex.HexWords(Draws(entropy, from, k)) + Hex.Hex8(entropy(from + k))
      == out + Hex.HexWords(Draws(entropy, from, k + 1))
  {
    Hex.HexWordsAppend(Draws(entropy, from, k), entropy(from + k));
  }

  /** The same for one password character. */
  lemma PasswordPrintStep(entropy: nat -> u32, out: string, from: nat, k: nat)
    ensures out + Password.PasswordText(Draws(entropy, from, k)) + [Password.PasswordChar(entropy(from + k))]
      == out + Password.PasswordText(Draws(entropy, from, k + 1))
  {
    Password.PasswordTextAppend(Draws(entropy, from, k), entropy(from + k));
  }

  /** The word counts `main` passes to its six formatter calls, in call
      order: the 64-, 128- and 256-bit integers and the 65-, 130- and
      256-bit passwords. */
  const Requests: seq<nat> := [2, 4, 8, 11, 22, 43]

  /** How many words the calls before call `k` draw altogether, when the
      calls request `counts` words in turn. */
  function DrawnBefore(counts: seq<nat>, k: nat): nat
    requires k <= |counts|
  {
    if k == 0 then 0 else DrawnBefore(counts, k - 1) + counts[k - 1]
  }

  /** The words call `k` prints: as many as it requests, taken from the
      stream where the previous call stopped. */
  function CallDraws(entropy: nat -> u32, at: nat, counts: seq<nat>, k: nat): (ws: seq<u32>)
    requires k < |counts|
    ensures |ws| == counts[k]
    ensures forall i :: 0 <= i < |ws| ==> ws[i] == entropy(at + DrawnBefore(counts, k) + i)
  {
    var ws := Draws(entropy, at + DrawnBefore(counts, k), counts[k]);
    assert forall i :: 0 <= i < |ws| ==> ws[i] == entropy(at + DrawnBefore(counts, k) + i) by {
      forall i | 0 <= i < |ws|
        ensures ws[i] == entropy(at + DrawnBefore(counts, k) + i)
      {
        DrawsAt(entropy, at + DrawnBefore(counts, k), counts[k], i);
      }
    }
    ws
  }

  /** The table written out: the six calls start 0, 2, 6, 14, 25 and 47
      words after `at`. */
  lemma CallDrawsTable(entropy: nat -> u32, at: nat)
    ensures CallDraws(entropy, at, Requests, 0) == Draws(entropy, at, 2)
    ensures CallDraws(entropy, at, Requests, 1) == Draws(entropy, at + 2, 4)
    ensures CallDraws(entropy, at, Requests, 2) == Draws(entropy, at + 2 + 4, 8)
    ensures CallDraws(entropy, at, Requests, 3) == Draws(entropy, at + 2 + 4 + 8, 11)
    ensures CallDraws(entropy, at, Requests, 4) == Draws(entropy, at + 2 + 4 + 8 + 11, 22)
    ensures CallDraws(entropy, at, Requests, 5) == Draws(entropy, at + 2 + 4 + 8 + 11 + 22, 43)
  {
    assert DrawnBefore(Requests, 1) == 2 && DrawnBefore(Requests, 2) == 2 + 4;
    assert DrawnBefore(Requests, 3) == 2 + 4 + 8 && DrawnBefore(Requests, 4) == 2 + 4 + 8 + 11;
    assert DrawnBefore(Requests, 5) == 2 + 4 + 8 + 11 + 22;
  }

  /** What `main` prints between its two counter readings, after the text
      `before` already on standard output, when draw number `at` is the
      next word of the stream: each caption, then the words of call `k`
      for each of the six calls, three as hexadecimal integers and three
      as passwords. */
  function Transcript(before: string, entropy: nat -> u32, at: nat): (s: string)
    ensures |s| == |before| + 306
  {
    before + "True random integers:\n"
      + "\n64-bit: " + Hex.HexWords(CallDraws(entropy, at, Requests, 0))
      + "\n128-bit: " + Hex.HexWords(CallDraws(entropy, at, Requests, 1))
      + "\n256-bit: " + Hex.HexWords(CallDraws(entropy, at, Requests, 2))
      + "\n\nTrue random alphanumeric passwords:\n"
      + "\n65-bit: " + Password.PasswordText(CallDraws(entropy, at, Requests, 3))
      + "\n130-bit: " + Password.PasswordText(CallDraws(entropy, at, Requests, 4))
      + "\n256-bit: " + Password.PasswordText(CallDraws(entropy, at, Requests, 5))
  }

  /** The 64-bit line of the transcript holds the first two draws, which
      read back from its digits, and the 256-bit password closes it. */
  lemma TranscriptSections(before: string, entropy: nat -> u32, at: nat)
    ensures var s := Transcript(before, entropy, at);
      && s[|before| + 31 .. |before| + 47] == Hex.HexWords(Draws(entropy, at, 2))
      && s[|s| - 43 ..] == Password.PasswordText(Draws(entropy, at + 47, 43))
      && Hex.IsHexString(s[|before| + 31 .. |before| + 47])
      && Hex.ParseWords(s[|before| + 31 .. |before| + 47]) == Draws(entropy, at, 2)
  {
    var s := Transcript(before, entropy, at);
    var p := before + "True random integers:\n" + "\n64-bit: ";
    CallDrawsTable(entropy, at);
    var h := Hex.HexWords(Draws(entropy, at, 2));
    var pw := Password.PasswordText(Draws(entropy, at + 2 + 4 + 8 + 11 + 22, 43));
    assert |p| == |before| + 31;
    assert s[..|p| + 16] == p + h;
    assert s[|p| .. |p| + 16] == h;
    assert s[|s| - 43 ..] == pw;
    Hex.WordsRoundTrip(Draws(entropy, at, 2));
  }

  /** The words the first `k` calls print, one call after the other. */
  function CallsDraws(entropy: nat -> u32, at: nat, counts: seq<nat>, k: nat): (ws: seq<u32>)
    requires k <= |counts|
    ensures |ws| == DrawnBefore(counts, k)
  {
    if k == 0 then [] else CallsDraws(entropy, at, counts, k - 1) + CallDraws(entropy, at, counts, k - 1)
  }

  /** The first `k` calls together consume the next words of the stream,
      each exactly once and in order: no word is printed twice and none
      is skipped. */
  lemma {:induction false} CallsDrawsContiguous(entropy: nat -> u32, at: nat, counts: seq<nat>, k: nat)
    requires k <= |counts|
    ensures CallsDraws(entropy, at, counts, k) == Draws(entropy, at, DrawnBefore(counts, k))
  {
    if k > 0 {
      CallsDrawsContiguous(entropy, at, counts, k - 1);
      DrawsSplit(entropy, at, DrawnBefore(counts, k - 1), counts[k - 1]);
    }
  }

  /** All six calls of `main` print the next 90 words of the stream. */
  lemma TranscriptDraws(entropy: nat -> u32, at: nat)
    ensures CallsDraws(entropy, at, Requests, |Requests|) == Draws(entropy, at, 90)
  {
    CallsDrawsContiguous(entropy, at, Requests, |Requests|);
  }

  /** The closing `printf` of `main`, with the elapsed tick count as two
      `%08X` halves. */
  function TickReport(elapsed: u64): (s: string)
    ensures |s| == 49
  {
    "\n\nExecution time in CPU ticks:\n\n" + Hex.Hex8(Ticks.High32(elapsed)) + Hex.Hex8(Ticks.Low32(elapsed)) + "\n"
  }

  /** The sixteen digits of the closing line read back as the elapsed count. */
  lemma TickReportRoundTrip(elapsed: u64)
    ensures Hex.IsHexString(TickReport(elapsed)[32..48])
    ensures Hex.ParseHex(TickReport(elapsed)[32..48]) == elapsed
  {
    var s := TickReport(elapsed);
    assert s[32..48] == Ticks.TickDigits(elapsed);
    Ticks.TickDigitsRoundTrip(elapsed);
  }

  /** The two foreign routines as scripted inputs: draw number `k` of
      `jytter_true_random_get` yields `entropy(k)`, reading number `k` of
      `timestamp_get` yields `clock(k)`. */
  datatype Env = Env(entropy: nat -> u32, clock: nat -> u64)

  /** What the demo has done to the world so far: how many words it has
      drawn, how many counter readings it has taken, and what it has
      written to standard output. */
  datatype World = World(drawn: nat, ticksRead: nat, stdout: string)

  /** `jytter_true_random_get`: returns the next scripted word. It may use
      the scratch area as it likes; nothing here reads it afterwards. */
  method TrueRandomGet(env: Env, w: World, scratch: ScratchSpace) returns (w': World, r: u32)
    modifies scratch
    ensures r == env.entropy(w.drawn)
    ensures w' == w.(drawn := w.drawn + 1)
  {
    r := env.entropy(w.drawn);
    w' := w.(drawn := w.drawn + 1);
  }

  /** `timestamp_get`: returns the next scripted counter reading. */
  method TimestampGet(env: Env, w: World) returns (w': World, t: u64)
    ensures t == env.clock(w.ticksRead)
    ensures w' == w.(ticksRead := w.ticksRead + 1)
  {
    t := env.clock(w.ticksRead);
    w' := w.(ticksRead := w.ticksRead + 1);
  }

  /** `true_random_printf`: draws `count` words through one scratch area
      and prints each as eight upper-case hexadecimal digits. */
  method TrueRandomPrintf(env: Env, w: World, count: u32) returns (w': World)
    ensures w' == w.(drawn := w.drawn + count,
                     stdout := w.stdout + Hex.HexWords(Draws(env.entropy, w.drawn, count)))
  {
    var scratch := new ScratchSpace;
    var remaining: u32 := count;
    w' := w;
    while remaining != 0
      invariant remaining <= count
      invariant w'.drawn == w.drawn + (count - remaining) && w'.ticksRead == w.ticksRead
      invariant w'.stdout == w.stdout + Hex.HexWords(Draws(env.entropy, w.drawn, count - remaining))
      decreases remaining
    {
      remaining := remaining - 1;
      var trueRandom;
      w', trueRandom := TrueRandomGet(env, w', scratch);
      HexPrintStep(env.entropy, w.stdout, w.drawn, count - remaining - 1);
      w' := w'.(stdout := w'.stdout + Hex.Hex8(trueRandom));
    }
  }

  /** `true_random_password_printf`: draws one word per character through
      one scratch area and prints the character its residue maps to. */
  method TrueRandomPasswordPrintf(env: Env, w: World, charCount: u32) returns (w': World)
    ensures w' == w.(drawn := w.drawn + charCount,
                     stdout := w.stdout + Password.PasswordText(Draws(env.entropy, w.drawn, charCount)))
  {
    var scratch := new ScratchSpace;
    var remaining: u32 := charCount;
    w' := w;
    while remaining != 0
      invariant remaining <= charCount
      invariant w'.drawn == w.drawn + (charCount - remaining) && w'.ticksRead == w.ticksRead
      invariant w'.stdout == w.stdout + Password.PasswordText(Draws(env.entropy, w.drawn, charCount - remaining))
      decreases remaining
    {
      remaining := remaining - 1;
      var trueRandom;
      w', trueRandom := TrueRandomGet(env, w', scratch);
      var character := Password.MapResidue(Password.Residue(trueRandom));
      PasswordPrintStep(env.entropy, w.stdout, w.drawn, charCount - remaining - 1);
      w' := w'.(stdout := w'.stdout + [character as char]);
    }
  }

  /** `main`: reads the counter, prints the captions and makes the six
      formatter calls in order, reads the counter again and prints the
      wrapped difference. */
  method Run(env: Env, w: World) returns (w': World)
    ensures w'.drawn == w.drawn + 90
    ensures w'.ticksRead == w.ticksRead + 2
    ensures w'.stdout == Transcript(w.stdout, env.entropy, w.drawn)
      + TickReport(Ticks.Sub64(env.clock(w.ticksRead + 1), env.clock(w.ticksRead)))
  {
    CallDrawsTable(env.entropy, w.drawn);
    var timestampStart, timestampEnd;
    w', timestampStart := TimestampGet(env, w);
    w' := w'.(stdout := w'.stdout + "True random integers:\n");
    w' := w'.(stdout := w'.stdout + "\n64-bit: ");
    w' := TrueRandomPrintf(env, w', 2);
    w' := w'.(stdout := w'.stdout + "\n128-bit: ");
    w' := TrueRandomPrintf(env, w', 4);
    w' := w'.(stdout := w'.stdout + "\n256-bit: ");
    w' := TrueRandomPrintf(env, w', 8);
    w' := w'.(stdout := w'.stdout + "\n\nTrue random alphanumeric passwords:\n");
    w' := w'.(stdout := w'.stdout + "\n65-bit: ");
    w' := TrueRandomPasswordPrintf(env, w', 11);
    w' := w'.(stdout := w'.stdout + "\n130-bit: ");
    w' := TrueRandomPasswordPrintf(env, w', 22);
    w' := w'.(stdout := w'.stdout + "\n256-bit: ");
    w' := TrueRandomPasswordPrintf(env, w', 43);
    w', timestampEnd := TimestampGet(env, w');
    timestampEnd := Ticks.Sub64(timestampEnd, timestampStart);
    w' := w'.(stdout := w'.stdout + TickReport(timestampEnd));
  }
}
