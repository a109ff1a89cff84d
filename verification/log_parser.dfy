/**
 * Classification of one (already stripped) reflector log line by the two
 * anchored patterns of `process_line`:
 *   start: `^M: (\S+ \S+) Received data from (\S+)`
 *   end:   `^M: (\S+ \S+) Received end of transmission`
 * The start pattern is tried first; text after the matched part is ignored.
 */
module LogParser {
  import opened Text
  import opened Wrappers

  type Callsign = string
  type Timestamp = string

  datatype LogEvent =
    | Start(timestamp: Timestamp, callsign: Callsign)
    | End(timestamp: Timestamp)
    | Unrecognized

  const Marker: string := "M: "
  const DataFrom: string := " Received data from "
  const EndOfTx: string := " Received end of transmission"

  /**
   * The part both patterns share: the marker `M: `, then `\S+ \S+`. Yields the
   * two tokens of the timestamp group and the text after it. Each `\S+` is
   * greedy and cannot give characters back, because what follows each of them
   * must be a space.
   */
  function Head(line: string): (r: Option<(string, string, string)>)
    ensures r.Some? ==> Marker <= line && IsToken(r.value.0) && IsToken(r.value.1)
    ensures r.Some? ==> r.value.2 == [] || IsSpace(r.value.2[0])
  {
    if !(Marker <= line) then None
    else
      var a := line[|Marker|..];
      var n1 := TokenLen(a);
      if n1 == 0 || n1 == |a| || a[n1] != ' ' then None
      else
        var b := a[n1 + 1..];
        var n2 := TokenLen(b);
        if n2 == 0 then None
        else
          TokenPrefix(a);
          TokenPrefix(b);
          Some((a[..n1], b[..n2], b[n2..]))
  }

  /** What must follow the timestamp: the start phrase and a callsign, or the end phrase. */
  function Body(ts: Timestamp, rest: string): (r: LogEvent)
    ensures r.Start? ==> r.timestamp == ts && DataFrom <= rest && IsToken(r.callsign)
    ensures r.End? ==> r.timestamp == ts && EndOfTx <= rest
    ensures r.Unrecognized? ==> !(EndOfTx <= rest)
  {
    if DataFrom <= rest && TokenLen(rest[|DataFrom|..]) > 0 then
      var c := rest[|DataFrom|..];
      TokenPrefix(c);
      Start(ts, c[..TokenLen(c)])
    else if EndOfTx <= rest then End(ts)
    else Unrecognized
  }

  /** The classifier of `process_line`: the start pattern first, then the end pattern. */
  function Parse(line: string): (r: LogEvent)
    ensures !r.Unrecognized? ==> Marker <= line
    ensures r.Start? ==> IsToken(r.callsign)
  {
    match Head(line)
    case None => Unrecognized
    case Some((t1, t2, rest)) => Body(t1 + " " + t2, rest)
  }

  /** `line` is matched by the start pattern with groups `t1 + " " + t2` and `cs`, followed by `rest`. */
  predicate StartShape(line: string, t1: string, t2: string, cs: string, rest: string)
  {
    IsToken(t1) && IsToken(t2) && IsToken(cs) &&
    line == Marker + t1 + " " + t2 + DataFrom + cs + rest
  }

  /** `line` is matched by the end pattern with group `t1 + " " + t2`, followed by `rest`. */
  predicate EndShape(line: string, t1: string, t2: string, rest: string)
  {
    IsToken(t1) && IsToken(t2) &&
    line == Marker + t1 + " " + t2 + EndOfTx + rest
  }

  /** The same line, written as nested concatenations the way the scanner takes it apart. */
  lemma StartAssoc(t1: string, t2: string, cs: string, rest: string)
    ensures Marker + t1 + " " + t2 + DataFrom + cs + rest
         == Marker + (t1 + (" " + (t2 + (DataFrom + (cs + rest)))))
  {
  }

  lemma EndAssoc(t1: string, t2: string, rest: string)
    ensures Marker + t1 + " " + t2 + EndOfTx + rest == Marker + (t1 + (" " + (t2 + (EndOfTx + rest))))
  {
  }

  /** A token followed by whitespace: the greedy run stops exactly at the token's end. */
  lemma TokenThen(t: string, tail: string)
    requires IsToken(t) && |tail| > 0 && IsSpace(tail[0])
    ensures TokenLen(t + tail) == |t|
    ensures (t + tail)[..|t|] == t && (t + tail)[|t|..] == tail
  {
    TokenLenAppend(t, tail);
  }

  /** Unfolding `Head` once its scanning positions are known. */
  lemma HeadAt(line: string, n1: nat, n2: nat)
    requires Marker <= line
    requires var a := line[|Marker|..];
      0 < n1 == TokenLen(a) < |a| && a[n1] == ' ' && 0 < n2 == TokenLen(a[n1 + 1..])
    ensures var a := line[|Marker|..]; var b := a[n1 + 1..];
      Head(line) == Some((a[..n1], b[..n2], b[n2..]))
  {
  }

  /** The shared part of a line built from two tokens and a tail that starts with whitespace. */
  lemma HeadOf(t1: string, t2: string, tail: string)
    requires IsToken(t1) && IsToken(t2) && |tail| > 0 && IsSpace(tail[0])
    ensures Head(Marker + (t1 + (" " + (t2 + tail)))) == Some((t1, t2, tail))
  {
    var a := t1 + (" " + (t2 + tail));
    var line := Marker + a;
    assert line[|Marker|..] == a;
    TokenThen(t1, " " + (t2 + tail));
    var b := a[|t1| + 1..];
    assert b == t2 + tail;
    TokenThen(t2, tail);
    HeadAt(line, |t1|, |t2|);
  }

  /** A line the shared part accepts is the marker, two tokens with one space between them, and the tail. */
  lemma HeadSound(line: string)
    requires Head(line).Some?
    ensures var (t1, t2, tail) := Head(line).value;
      IsToken(t1) && IsToken(t2) && line == Marker + (t1 + (" " + (t2 + tail)))
  {
    HeadAccepts(line);
    var a := line[|Marker|..];
    var n1 := TokenLen(a);
    var b := a[n1 + 1..];
    var n2 := TokenLen(b);
    HeadAt(line, n1, n2);
    var t1, t2, tail := a[..n1], b[..n2], b[n2..];
    SplitAt(b, n2);
    SplitAround(a, n1);
    SplitAt(line, |Marker|);
    assert line[..|Marker|] == Marker;
    TokenPrefix(a);
    TokenPrefix(b);
  }

  lemma TokenPrefix(s: string)
    requires TokenLen(s) > 0
    ensures IsToken(s[..TokenLen(s)])
  {
  }

  /** What `Head` checks before it accepts a line. */
  lemma HeadAccepts(line: string)
    requires Head(line).Some?
    ensures Marker <= line
    ensures var a := line[|Marker|..]; var n1 := TokenLen(a);
      0 < n1 < |a| && a[n1] == ' ' && 0 < TokenLen(a[n1 + 1..])
  {
  }

  lemma SplitAt(s: string, n: nat)
    requires n <= |s|
    ensures s == s[..n] + s[n..]
  {
  }

  lemma SplitAround(s: string, n: nat)
    requires n < |s| && s[n] == ' '
    ensures s == s[..n] + (" " + s[n + 1..])
  {
    assert s[n..] == " " + s[n + 1..];
    SplitAt(s, n);
  }

  /** After the start phrase, the callsign is the greedy token that follows it. */
  lemma BodyStart(ts: Timestamp, x: string)
    requires TokenLen(x) > 0
    ensures Body(ts, DataFrom + x) == Start(ts, x[..TokenLen(x)])
  {
    assert (DataFrom + x)[|DataFrom|..] == x;
  }

  /** After the end phrase, whatever follows is ignored. */
  lemma BodyEnd(ts: Timestamp, x: string)
    ensures Body(ts, EndOfTx + x) == End(ts)
  {
    var tail := EndOfTx + x;
    assert tail[10] == 'e' && DataFrom[10] == 'd';
    assert !(DataFrom <= tail);
  }

  /** The greedy token at the start of `cs + rest`, when `cs` is a token. */
  lemma CallsignOf(cs: string, rest: string)
    requires IsToken(cs)
    ensures TokenLen(cs + rest) > 0
    ensures (cs + rest)[..TokenLen(cs + rest)] == cs + rest[..TokenLen(rest)]
  {
    TokenLenAppend(cs, rest);
    assert (cs + rest)[..|cs| + TokenLen(rest)] == cs + rest[..TokenLen(rest)];
  }

  /**
   * Every line of start shape is classified as a start: the timestamp is the
   * two tokens, and the callsign is the captured token extended by whatever
   * non-whitespace immediately follows it (the greedy `\S+`).
   */
  lemma StartComplete(t1: string, t2: string, cs: string, rest: string)
    requires StartShape(Marker + t1 + " " + t2 + DataFrom + cs + rest, t1, t2, cs, rest)
    ensures Parse(Marker + t1 + " " + t2 + DataFrom + cs + rest)
         == Start(t1 + " " + t2, cs + rest[..TokenLen(rest)])
  {
    StartAssoc(t1, t2, cs, rest);
    HeadOf(t1, t2, DataFrom + (cs + rest));
    CallsignOf(cs, rest);
    BodyStart(t1 + " " + t2, cs + rest);
  }

  /** Every line of end shape is classified as an end (it cannot also be of start shape). */
  lemma EndComplete(t1: string, t2: string, rest: string)
    requires EndShape(Marker + t1 + " " + t2 + EndOfTx + rest, t1, t2, rest)
    ensures Parse(Marker + t1 + " " + t2 + EndOfTx + rest) == End(t1 + " " + t2)
  {
    EndAssoc(t1, t2, rest);
    HeadOf(t1, t2, EndOfTx + rest);
    BodyEnd(t1 + " " + t2, rest);
  }

  /** A start result comes from a line of start shape whose captured callsign is maximal. */
  lemma StartSound(line: string)
    requires Parse(line).Start?
    ensures exists t1, t2, rest ::
      && StartShape(line, t1, t2, Parse(line).callsign, rest)
      && Parse(line).timestamp == t1 + " " + t2
      && (rest == [] || IsSpace(rest[0]))
  {
    HeadSound(line);
    var (t1, t2, tail) := Head(line).value;
    var c := tail[|DataFrom|..];
    var n := TokenLen(c);
    var cs, rest := c[..n], c[n..];
    TokenPrefix(c);
    SplitAt(c, n);
    SplitAt(tail, |DataFrom|);
    assert tail[..|DataFrom|] == DataFrom;
    StartAssoc(t1, t2, cs, rest);
    StartWitness(line, t1, t2, cs, rest);
  }

  lemma StartWitness(line: string, t1: string, t2: string, cs: string, rest: string)
    requires StartShape(line, t1, t2, cs, rest) && (rest == [] || IsSpace(rest[0]))
    requires Parse(line) == Start(t1 + " " + t2, cs)
    ensures exists t1, t2, rest ::
      && StartShape(line, t1, t2, Parse(line).callsign, rest)
      && Parse(line).timestamp == t1 + " " + t2
      && (rest == [] || IsSpace(rest[0]))
  {
  }

  /** An end result comes from a line of end shape. */
  lemma EndSound(line: string)
    requires Parse(line).End?
    ensures exists t1, t2, rest ::
      && EndShape(line, t1, t2, rest)
      && Parse(line).timestamp == t1 + " " + t2
  {
    HeadSound(line);
    var (t1, t2, tail) := Head(line).value;
    var rest := tail[|EndOfTx|..];
    SplitAt(tail, |EndOfTx|);
    assert tail[..|EndOfTx|] == EndOfTx;
    EndAssoc(t1, t2, rest);
    EndWitness(line, t1, t2, rest);
  }

  lemma EndWitness(line: string, t1: string, t2: string, rest: string)
    requires EndShape(line, t1, t2, rest)
    requires Parse(line) == End(t1 + " " + t2)
    ensures exists t1, t2, rest ::
      && EndShape(line, t1, t2, rest)
      && Parse(line).timestamp == t1 + " " + t2
  {
  }

  /** A line that is classified as unrecognized has neither shape. */
  lemma UnrecognizedSound(line: string, t1: string, t2: string, cs: string, rest: string)
    requires Parse(line).Unrecognized?
    ensures !StartShape(line, t1, t2, cs, rest)
    ensures !EndShape(line, t1, t2, rest)
  {
    if StartShape(line, t1, t2, cs, rest) {
      StartComplete(t1, t2, cs, rest);
    }
    if EndShape(line, t1, t2, rest) {
      EndComplete(t1, t2, rest);
    }
  }

  /**
   * A timestamp group must be two tokens: with a single token (an ISO 8601
   * `2024-01-01T10:00:00`, say) the second `\S+` takes the word `Received`
   * and neither phrase can follow, so the line is never recognized.
   */
  lemma SingleTokenTimestamp(ts: string, x: string)
    requires IsToken(ts)
    ensures Parse(Marker + ts + DataFrom + x) == Unrecognized
    ensures Parse(Marker + ts + EndOfTx + x) == Unrecognized
  {
    SingleTokenStart(ts, x);
    SingleTokenEnd(ts, x);
  }

  lemma SingleTokenStart(ts: string, x: string)
    requires IsToken(ts)
    ensures Parse(Marker + ts + DataFrom + x) == Unrecognized
  {
    NoPhrase(ts + " " + "Received", " data from ", x);
    ReceivedIsToken();
    var tail := " data from " + x;
    var line := Marker + (ts + (" " + ("Received" + tail)));
    HeadOf(ts, "Received", tail);
    ParseOfHead(line, ts, "Received", tail);
    SecondWordStart(ts, x);
  }

  lemma SingleTokenEnd(ts: string, x: string)
    requires IsToken(ts)
    ensures Parse(Marker + ts + EndOfTx + x) == Unrecognized
  {
    NoPhrase(ts + " " + "Received", " end of transmission", x);
    ReceivedIsToken();
    var tail := " end of transmission" + x;
    var line := Marker + (ts + (" " + ("Received" + tail)));
    HeadOf(ts, "Received", tail);
    ParseOfHead(line, ts, "Received", tail);
    SecondWordEnd(ts, x);
  }

  lemma ParseOfHead(line: string, t1: string, t2: string, tail: string)
    requires Head(line) == Some((t1, t2, tail))
    ensures Parse(line) == Body(t1 + " " + t2, tail)
  {
  }

  lemma ReceivedIsToken()
    ensures IsToken("Received")
  {
  }

  /** Both phrases begin with ` Received`, which a single-token timestamp leaves to the second `\S+`. */
  lemma SecondWordStart(ts: string, x: string)
    ensures Marker + ts + DataFrom + x == Marker + (ts + (" " + ("Received" + (" data from " + x))))
  {
    assert DataFrom == " " + ("Received" + " data from ");
    Regroup(Marker, ts, " ", "Received", " data from ", x);
  }

  lemma SecondWordEnd(ts: string, x: string)
    ensures Marker + ts + EndOfTx + x == Marker + (ts + (" " + ("Received" + (" end of transmission" + x))))
  {
    assert EndOfTx == " " + ("Received" + " end of transmission");
    Regroup(Marker, ts, " ", "Received", " end of transmission", x);
  }

  lemma Regroup(m: string, ts: string, sp: string, w: string, p: string, x: string)
    ensures m + ts + (sp + (w + p)) + x == m + (ts + (sp + (w + (p + x))))
  {
    assert sp + (w + p) + x == sp + (w + (p + x));
  }

  /** Text whose second character is not the `R` of ` Received` carries neither phrase. */
  lemma NoPhrase(ts: Timestamp, words: string, x: string)
    requires |words| > 1 && words[1] != 'R'
    ensures Body(ts, words + x) == Unrecognized
  {
    assert (words + x)[1] == words[1];
    assert DataFrom[1] == 'R' && EndOfTx[1] == 'R';
  }

  /** A start line as the reflector writes it, with its line break, is read as that start once stripped. */
  lemma StartLineRead(t1: string, t2: string, cs: string, eol: string)
    requires IsToken(t1) && IsToken(t2) && IsToken(cs) && AllSpace(eol)
    ensures Parse(Strip(Marker + t1 + " " + t2 + DataFrom + cs + eol)) == Start(t1 + " " + t2, cs)
  {
    var line := Marker + t1 + " " + t2 + DataFrom + cs;
    assert line[0] == 'M' && line[|line| - 1] == cs[|cs| - 1];
    StripOf([], line, eol);
    assert [] + line + eol == line + eol;
    assert line == Marker + t1 + " " + t2 + DataFrom + cs + [];
    StartComplete(t1, t2, cs, []);
    assert cs + [][..TokenLen([])] == cs;
  }

  /** An end line as the reflector writes it, with its line break, is read as that end once stripped. */
  lemma EndLineRead(t1: string, t2: string, eol: string)
    requires IsToken(t1) && IsToken(t2) && AllSpace(eol)
    ensures Parse(Strip(Marker + t1 + " " + t2 + EndOfTx + eol)) == End(t1 + " " + t2)
  {
    var line := Marker + t1 + " " + t2 + EndOfTx;
    assert line[0] == 'M' && line[|line| - 1] == 'n';
    StripOf([], line, eol);
    assert [] + line + eol == line + eol;
    assert line == Marker + t1 + " " + t2 + EndOfTx + [];
    EndComplete(t1, t2, []);
  }
}
