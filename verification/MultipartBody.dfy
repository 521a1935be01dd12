/**
 Splitting a multipart body into parts: libs/restinio/helpers/multipart_body.hpp, against
 the body syntax of section 5.1.1 of RFC 2046.
 */
module MultipartBody {
  import opened Wrappers

  const EOL := "\r\n"
  const LAST_SEPARATOR := "--\r\n"

  // ------------------------------------------------------------------ searching

  /** The position of the first occurrence of `pattern`. */
  function Find(s: string, pattern: string): Option<nat>
    decreases |s|
  {
    if pattern <= s then Some(0)
    else if s == [] then None
    else match Find(s[1..], pattern) case None => None case Some(k) => Some(k + 1)
  }

  predicate OccursAt(s: string, pattern: string, k: nat) {
    k + |pattern| <= |s| && s[k..k + |pattern|] == pattern
  }

  ghost predicate Contains(s: string, pattern: string) {
    exists k: nat :: OccursAt(s, pattern, k)
  }

  lemma {:induction false} FindFirst(s: string, pattern: string)
    ensures match Find(s, pattern)
            case None => !Contains(s, pattern)
            case Some(k) => OccursAt(s, pattern, k) && forall j: nat :: j < k ==> !OccursAt(s, pattern, j)
    decreases |s|
  {
    OccursAtStart(s, pattern);
    if !(pattern <= s) && s != [] {
      FindFirst(s[1..], pattern);
      forall j: nat | j > 0 ensures OccursAt(s, pattern, j) <==> OccursAt(s[1..], pattern, j - 1) {
        OccursAtShift(s, pattern, j);
      }
    }
  }

  lemma {:induction false} OccursAtStart(s: string, pattern: string)
    ensures OccursAt(s, pattern, 0) <==> pattern <= s
  {
    assert |pattern| <= |s| ==> s[0..|pattern|] == s[..|pattern|];
  }

  lemma {:induction false} OccursAtShift(s: string, pattern: string, j: nat)
    requires 0 < j && s != []
    ensures OccursAt(s, pattern, j) <==> OccursAt(s[1..], pattern, j - 1)
  {
    if j + |pattern| <= |s| { assert s[j..j + |pattern|] == s[1..][j - 1..j - 1 + |pattern|]; }
  }

  lemma {:induction false} FindUnique(s: string, pattern: string, k: nat)
    requires OccursAt(s, pattern, k) && forall j: nat :: j < k ==> !OccursAt(s, pattern, j)
    ensures Find(s, pattern) == Some(k)
  {
    FindFirst(s, pattern);
  }

  // -------------------------------------------------------------- specification

  /** Every part, enclosed by line ends and followed by the mark. */
  function Joined(parts: seq<string>, mark: string): string {
    if parts == [] then [] else EOL + parts[0] + EOL + mark + Joined(parts[1..], mark)
  }

  /** A multipart body around `parts`, after a preamble and before an epilogue. */
  function Assemble(preamble: string, parts: seq<string>, epilogue: string, mark: string): string {
    preamble + mark + Joined(parts, mark) + LAST_SEPARATOR + epilogue
  }

  /** A preamble is empty or ends a line. */
  predicate EndsLine(s: string) {
    s == [] || (|s| >= 2 && s[|s| - 2..] == EOL)
  }

  ghost predicate Encloses(body: string, mark: string, preamble: string, parts: seq<string>, epilogue: string) {
    && body == Assemble(preamble, parts, epilogue, mark)
    && EndsLine(preamble)
    && !Contains(preamble, mark)
    && (forall i :: 0 <= i < |parts| ==> !Contains(parts[i], mark))
  }

  function Prepend(front: seq<string>, rest: Option<seq<string>>): Option<seq<string>> {
    match rest case None => None case Some(parts) => Some(front + parts)
  }

  lemma {:induction false} PrependNone(rest: Option<seq<string>>)
    ensures Prepend([], rest) == rest
  {
    if rest.Some? { assert [] + rest.value == rest.value; }
  }

  lemma {:induction false} PrependOne(front: seq<string>, part: string, rest: Option<seq<string>>)
    ensures Prepend(front, Prepend([part], rest)) == Prepend(front + [part], rest)
  {
    if rest.Some? { assert front + ([part] + rest.value) == (front + [part]) + rest.value; }
  }

  /** One line end, a part, a line end and the mark: the part, and what follows the mark. */
  function NextPart(remaining: string, mark: string): (r: Option<(string, string)>)
    ensures r.Some? ==> |r.value.1| < |remaining|
  {
    if !(EOL <= remaining) then None
    else
      var r := remaining[2..];
      FindFirst(r, mark);
      match Find(r, mark)
      case None => None
      case Some(pos) =>
        if pos < 2 || r[pos - 2..pos] != EOL then None else Some((r[..pos - 2], r[pos + |mark|..]))
  }

  /** The parts between the first mark, which was just read, and the last one. */
  function SplitRest(remaining: string, mark: string): Option<seq<string>>
    decreases |remaining|
  {
    match NextPart(remaining, mark)
    case None => None
    case Some((part, after)) =>
      if LAST_SEPARATOR <= after then Some([part]) else Prepend([part], SplitRest(after, mark))
  }

  function Split(body: string, mark: string): seq<string> {
    FindFirst(body, mark);
    match Find(body, mark)
    case None => []
    case Some(pos) =>
      if pos != 0 && (pos < 2 || body[pos - 2..pos] != EOL) then []
      else if LAST_SEPARATOR <= body[pos + |mark|..] then []
      else match SplitRest(body[pos + |mark|..], mark) case None => [] case Some(parts) => parts
  }

  // ------------------------------------------------------------------ theorems

  predicate NoLineEnds(s: string) {
    forall i :: 0 <= i < |s| ==> s[i] != '\r' && s[i] != '\n'
  }

  /** After text that ends a line, the first mark is the one that follows. */
  lemma {:induction false} FirstMark(before: string, mark: string, rest: string)
    requires mark != [] && NoLineEnds(mark) && EndsLine(before) && !Contains(before, mark)
    ensures Find(before + mark + rest, mark) == Some(|before|)
  {
    var s := before + mark + rest;
    assert OccursAt(s, mark, |before|);
    if before != [] { assert before[|before| - 1] == before[|before| - 2..][1] == '\n'; }
    forall j: nat | j < |before| ensures !OccursAt(s, mark, j) {
      assert !OccursAt(before, mark, j);
      if j + |mark| <= |before| {
        assert before[j..j + |mark|] == s[j..j + |mark|];
      } else if j + |mark| <= |s| {
        var last := |before| - 1;
        assert s[j..j + |mark|][last - j] == s[last] == '\n' != mark[last - j];
      }
    }
    FindUnique(s, mark, |before|);
  }

  lemma {:induction false} LineDoesNotAddMark(part: string, mark: string)
    requires mark != [] && NoLineEnds(mark) && !Contains(part, mark)
    ensures !Contains(part + EOL, mark)
  {
    var s := part + EOL;
    forall j: nat ensures !OccursAt(s, mark, j) {
      assert !OccursAt(part, mark, j);
      if j + |mark| <= |part| {
        assert part[j..j + |mark|] == s[j..j + |mark|];
      } else if j + |mark| <= |s| {
        assert s[j..j + |mark|][|mark| - 1] == s[j + |mark| - 1] != mark[|mark| - 1];
      }
    }
  }

  function Enclosed(part: string, mark: string, after: string): string {
    EOL + ((part + EOL) + mark + after)
  }

  lemma {:induction false} JoinedStep(parts: seq<string>, mark: string, epilogue: string)
    requires parts != []
    ensures Joined(parts, mark) + LAST_SEPARATOR + epilogue
         == Enclosed(parts[0], mark, Joined(parts[1..], mark) + LAST_SEPARATOR + epilogue)
  {
    var others := Joined(parts[1..], mark);
    hide Joined;
    assert (EOL + parts[0] + EOL + mark + others) + LAST_SEPARATOR + epilogue
        == EOL + ((parts[0] + EOL) + mark + (others + LAST_SEPARATOR + epilogue));
  }

  lemma {:induction false} NextPartOfEnclosed(part: string, mark: string, after: string)
    requires Find((part + EOL) + mark + after, mark) == Some(|part| + 2)
    ensures NextPart(Enclosed(part, mark, after), mark) == Some((part, after))
  {
    hide Find, Contains, OccursAt;
    var r := (part + EOL) + mark + after;
    var remaining := EOL + r;
    assert remaining[2..] == r;
    var pos := |part| + 2;
    assert r[pos - 2..pos] == EOL && r[..pos - 2] == part && r[pos + |mark|..] == after;
  }

  lemma {:induction false} SplitRestOfJoined(parts: seq<string>, mark: string, epilogue: string)
    requires parts != [] && mark != [] && NoLineEnds(mark)
    requires forall i :: 0 <= i < |parts| ==> !Contains(parts[i], mark)
    ensures SplitRest(Joined(parts, mark) + LAST_SEPARATOR + epilogue, mark) == Some(parts)
    decreases |parts|
  {
    hide Find, Contains, OccursAt, Joined, SplitRest, Enclosed, NoLineEnds, NextPart;
    var part, others := parts[0], parts[1..];
    var after := Joined(others, mark) + LAST_SEPARATOR + epilogue;
    JoinedStep(parts, mark, epilogue);
    LineDoesNotAddMark(part, mark);
    FirstMark(part + EOL, mark, after);
    NextPartOfEnclosed(part, mark, after);
    JoinedStart(others, mark, epilogue);
    assert parts == [part] + others;
    SplitRestUnfold(Enclosed(part, mark, after), mark);
    if others == [] {
      assert parts == [part];
    } else {
      SplitRestOfJoined(others, mark, epilogue);
    }
  }

  /** After a mark comes either the end or another line. */
  lemma {:induction false} JoinedStart(parts: seq<string>, mark: string, epilogue: string)
    ensures var s := Joined(parts, mark) + LAST_SEPARATOR + epilogue;
            LAST_SEPARATOR <= s <==> parts == []
  {
    var s := Joined(parts, mark) + LAST_SEPARATOR + epilogue;
    if parts == [] {
      assert s == LAST_SEPARATOR + epilogue;
    } else {
      JoinedStep(parts, mark, epilogue);
      assert s[0] == '\r';
    }
  }

  lemma {:induction false} SplitRestUnfold(remaining: string, mark: string)
    ensures match NextPart(remaining, mark)
            case None => SplitRest(remaining, mark) == None
            case Some((part, after)) =>
              SplitRest(remaining, mark)
              == if LAST_SEPARATOR <= after then Some([part]) else Prepend([part], SplitRest(after, mark))
  {
    hide NextPart;
  }

  lemma {:induction false} NextPartEncloses(remaining: string, mark: string)
    requires NextPart(remaining, mark).Some?
    ensures var (part, after) := NextPart(remaining, mark).value;
            remaining == Enclosed(part, mark, after) && !Contains(part, mark)
  {
    hide Find;
    var (part, after) := NextPart(remaining, mark).value;
    var r := remaining[2..];
    FindFirst(r, mark);
    assert r == (part + EOL) + mark + after;
    forall j: nat ensures !OccursAt(part, mark, j) {
      if j + |mark| <= |part| {
        assert part[j..j + |mark|] == r[j..j + |mark|];
        assert !OccursAt(r, mark, j);
      }
    }
  }

  lemma {:induction false} SplitRestIsJoined(remaining: string, mark: string) returns (epilogue: string)
    requires SplitRest(remaining, mark).Some?
    ensures var parts := SplitRest(remaining, mark).value;
            && parts != []
            && remaining == Joined(parts, mark) + LAST_SEPARATOR + epilogue
            && (forall i :: 0 <= i < |parts| ==> !Contains(parts[i], mark))
    decreases |remaining|
  {
    hide Find, Contains, OccursAt, Joined, SplitRest, Enclosed, NextPart;
    SplitRestUnfold(remaining, mark);
    NextPartEncloses(remaining, mark);
    var (part, after) := NextPart(remaining, mark).value;
    var parts := SplitRest(remaining, mark).value;
    assert parts[0] == part;
    if LAST_SEPARATOR <= after {
      epilogue := after[4..];
      assert parts[1..] == [];
      NothingJoined(mark);
      assert after == [] + LAST_SEPARATOR + epilogue;
    } else {
      epilogue := SplitRestIsJoined(after, mark);
      assert parts[1..] == SplitRest(after, mark).value;
    }
    JoinedStep(parts, mark, epilogue);
  }

  lemma {:induction false} NothingJoined(mark: string)
    ensures Joined([], mark) == []
  {
  }

  lemma {:induction false} AssembleSplits(preamble: string, parts: seq<string>, epilogue: string, mark: string)
    ensures Assemble(preamble, parts, epilogue, mark)
         == preamble + mark + (Joined(parts, mark) + LAST_SEPARATOR + epilogue)
  {
    hide Joined;
  }

  /** Splitting an assembled body gives back exactly its parts, whatever surrounds them. */
  lemma {:induction false} SplitOfAssembled(body: string, mark: string, preamble: string, parts: seq<string>, epilogue: string)
    requires mark != [] && NoLineEnds(mark) && parts != [] && Encloses(body, mark, preamble, parts, epilogue)
    ensures Split(body, mark) == parts
  {
    hide Find, Contains, OccursAt, Joined, SplitRest, Assemble, NoLineEnds;
    var rest := Joined(parts, mark) + LAST_SEPARATOR + epilogue;
    AssembleSplits(preamble, parts, epilogue, mark);
    FirstMark(preamble, mark, rest);
    JoinedStart(parts, mark, epilogue);
    SplitRestOfJoined(parts, mark, epilogue);
    var pos := |preamble|;
    assert (preamble + mark + rest)[pos + |mark|..] == rest;
    if pos != 0 { assert (preamble + mark + rest)[pos - 2..pos] == preamble[pos - 2..]; }
  }

  /** Conversely, any parts that splitting finds reassemble, with what surrounds them, to the body. */
  lemma {:induction false} SplitReassembles(body: string, mark: string) returns (preamble: string, epilogue: string)
    requires mark != [] && Split(body, mark) != []
    ensures Encloses(body, mark, preamble, Split(body, mark), epilogue)
  {
    hide Find, Joined, SplitRest, Assemble;
    FindFirst(body, mark);
    var pos := Find(body, mark).value;
    preamble := body[..pos];
    var rest := body[pos + |mark|..];
    epilogue := SplitRestIsJoined(rest, mark);
    var parts := Split(body, mark);
    assert body == preamble + mark + rest;
    AssembleSplits(preamble, parts, epilogue, mark);
    if pos != 0 { assert preamble[|preamble| - 2..] == body[pos - 2..pos]; }
    forall j: nat ensures !OccursAt(preamble, mark, j) {
      if j + |mark| <= |preamble| && j < pos {
        assert preamble[j..j + |mark|] == body[j..j + |mark|];
        assert !OccursAt(body, mark, j);
      }
    }
  }

  // ------------------------------------------------------------ boundary values

  predicate IsBcharNoSpace(c: char) {
    || '0' <= c <= '9' || 'A' <= c <= 'Z' || 'a' <= c <= 'z'
    || c in "'()+_,-./:=?"
  }

  predicate IsBchar(c: char) {
    IsBcharNoSpace(c) || c == ' '
  }

  /** bcharsnospace of the grammar, listed. */
  lemma {:induction false} BcharsAreListed(c: char)
    ensures IsBcharNoSpace(c) <==>
            '0' <= c <= '9' || 'A' <= c <= 'Z' || 'a' <= c <= 'z' ||
            c in {'\'', '(', ')', '+', '_', ',', '-', '.', '/', ':', '=', '?'}
    ensures IsBchar(c) <==> IsBcharNoSpace(c) || c == ' '
  {
    assert "'()+_,-./:=?"[0] == '\'';
  }

  /** boundary := 0*69<bchars> bcharsnospace */
  predicate IsBoundary(value: string) {
    && 1 <= |value| <= 70
    && (forall i :: 0 <= i < |value| ==> IsBchar(value[i]))
    && value[|value| - 1] != ' '
  }

  /** Up to 69 of these, the last character being no space. */
  lemma {:induction false} BoundaryFollowsGrammar(front: string, last: char)
    ensures IsBoundary(front + [last]) <==> |front| <= 69 && (forall c :: c in front ==> IsBchar(c)) && IsBcharNoSpace(last)
    ensures !IsBoundary("")
  {
    hide IsBcharNoSpace;
    var value := front + [last];
    assert forall i :: 0 <= i < |front| ==> value[i] == front[i];
    if IsBoundary(value) {
      assert value[|front|] == last;
      SpaceIsNone();
    } else if |front| <= 69 && (forall c :: c in front ==> IsBchar(c)) {
      SpaceIsNone();
    }
  }

  lemma {:induction false} SpaceIsNone()
    ensures !IsBcharNoSpace(' ')
  {
  }

  /** For every accepted boundary: splitting finds `parts` if and only if the body encloses them. */
  lemma {:induction false} SplitIffEncloses(body: string, boundary: string, parts: seq<string>)
    requires IsBoundary(boundary) && parts != []
    ensures var mark := "--" + boundary;
            Split(body, mark) == parts
            <==> exists preamble: string, epilogue: string :: Encloses(body, mark, preamble, parts, epilogue)
  {
    hide Split, Encloses;
    var mark := "--" + boundary;
    MarkHasNoLineEnds(boundary);
    if Split(body, mark) == parts {
      var preamble, epilogue := SplitReassembles(body, mark);
      assert Encloses(body, mark, preamble, parts, epilogue);
    }
    if exists preamble: string, epilogue: string :: Encloses(body, mark, preamble, parts, epilogue) {
      var preamble: string, epilogue: string :| Encloses(body, mark, preamble, parts, epilogue);
      SplitOfAssembled(body, mark, preamble, parts, epilogue);
    }
  }

  // ------------------------------------------------------ the grammar of RFC 2046

  predicate IsPadding(s: string) {
    forall i :: 0 <= i < |s| ==> s[i] == ' ' || s[i] == '\t'
  }

  /** No line of `s` starts with the mark; elsewhere in a line it may stand. */
  ghost predicate NoLineIsMark(s: string, mark: string) {
    forall k: nat :: OccursAt(s, mark, k) ==> k != 0 && (k < 2 || s[k - 2..k] != EOL)
  }

  /** What follows the first mark: before each part, the transport padding of the mark before it; then `rest`. */
  function Delimited(pads: seq<string>, parts: seq<string>, mark: string, rest: string): string
    requires |pads| == |parts|
  {
    if parts == [] then rest else pads[0] + Enclosed(parts[0], mark, Delimited(pads[1..], parts[1..], mark, rest))
  }

  /** transport-padding [CRLF epilogue], after the two hyphens of the last mark */
  predicate IsClosing(closing: string) {
    exists n :: 0 <= n <= |closing| && IsPadding(closing[..n]) && (n == |closing| || EOL <= closing[n..])
  }

  /**
   multipart-body of section 5.1.1: an optional preamble that ends its line, at least one part,
   padding after every mark, and an optional epilogue; lines of parts do not start with the mark.
   */
  ghost predicate IsMultipartBody(body: string, mark: string, preamble: string, pads: seq<string>, parts: seq<string>,
      closing: string)
  {
    && |pads| == |parts| > 0
    && body == preamble + mark + Delimited(pads, parts, mark, "--" + closing)
    && EndsLine(preamble) && NoLineIsMark(preamble, mark)
    && (forall i :: 0 <= i < |pads| ==> IsPadding(pads[i]))
    && (forall i :: 0 <= i < |parts| ==> NoLineIsMark(parts[i], mark))
    && IsClosing(closing)
  }

  /** What the splitter asks for beyond the grammar. */
  ghost predicate IsStrict(mark: string, preamble: string, pads: seq<string>, parts: seq<string>, closing: string) {
    && !Contains(preamble, mark)
    && StrictParts(mark, pads, parts)
    && EOL <= closing
  }

  ghost predicate StrictParts(mark: string, pads: seq<string>, parts: seq<string>) {
    && (forall i :: 0 <= i < |pads| ==> pads[i] == "")
    && (forall i :: 0 <= i < |parts| ==> !Contains(parts[i], mark))
  }

  lemma {:induction false} StrictPartsStep(mark: string, pads: seq<string>, parts: seq<string>)
    requires |pads| == |parts| > 0
    ensures StrictParts(mark, pads, parts) <==>
            pads[0] == "" && !Contains(parts[0], mark) && StrictParts(mark, pads[1..], parts[1..])
  {
    hide Contains;
    if pads[0] == "" && !Contains(parts[0], mark) && StrictParts(mark, pads[1..], parts[1..]) {
      forall i | 0 <= i < |pads| ensures pads[i] == "" && !Contains(parts[i], mark) {
        if i > 0 { assert pads[i] == pads[1..][i - 1] && parts[i] == parts[1..][i - 1]; }
      }
    }
  }

  /** A mark inside of some text is found there, not at the start of a line. */
  lemma {:induction false} MarkInside(text: string, mark: string, rest: string)
    requires mark != [] && Contains(text, mark) && NoLineIsMark(text, mark)
    ensures var s := text + rest;
            match Find(s, mark)
            case None => false
            case Some(k) => 0 < k <= |text| && (k < 2 || s[k - 2..k] != EOL)
  {
    hide Find;
    var s := text + rest;
    var j: nat :| OccursAt(text, mark, j);
    assert s[j..j + |mark|] == text[j..j + |mark|];
    assert OccursAt(s, mark, j);
    FindFirst(s, mark);
    var k := Find(s, mark).value;
    assert k <= j;
    assert text[k..k + |mark|] == s[k..k + |mark|];
    assert OccursAt(text, mark, k);
    if k >= 2 { assert s[k - 2..k] == text[k - 2..k]; }
  }

  /** A part with a mark inside of a line ends the search. */
  lemma {:induction false} NextPartStops(part: string, mark: string, after: string)
    requires mark != [] && Contains(part, mark) && NoLineIsMark(part, mark)
    ensures NextPart(Enclosed(part, mark, after), mark) == None
  {
    hide Find, Contains, NoLineIsMark;
    var remaining := Enclosed(part, mark, after);
    var r := (part + EOL) + mark + after;
    assert remaining[2..] == r;
    assert r == part + (EOL + mark + after);
    MarkInside(part, mark, EOL + mark + after);
  }

  lemma {:induction false} NotALineEnd(s: string, mark: string)
    requires s != [] && s[0] != '\r'
    ensures NextPart(s, mark) == None && SplitRest(s, mark) == None
  {
    assert !(EOL <= s);
  }

  lemma {:induction false} SplitRestOfDelimited(pads: seq<string>, parts: seq<string>, mark: string, rest: string)
    requires |pads| == |parts| > 0 && mark != [] && NoLineEnds(mark) && rest != [] && rest[0] == '-'
    requires forall i :: 0 <= i < |pads| ==> IsPadding(pads[i])
    requires forall i :: 0 <= i < |parts| ==> NoLineIsMark(parts[i], mark)
    ensures SplitRest(Delimited(pads, parts, mark, rest), mark) ==
            if StrictParts(mark, pads, parts) && LAST_SEPARATOR <= rest then Some(parts) else None
    decreases |parts|
  {
    hide Find, Contains, OccursAt, NoLineIsMark, NoLineEnds, SplitRest, NextPart, Enclosed, StrictParts;
    var pad, part, others := pads[0], parts[0], parts[1..];
    var after := Delimited(pads[1..], others, mark, rest);
    StrictPartsStep(mark, pads, parts);
    if pad != "" {
      assert IsPadding(pad) && Delimited(pads, parts, mark, rest)[0] == pad[0];
      NotALineEnd(Delimited(pads, parts, mark, rest), mark);
    } else {
      assert Delimited(pads, parts, mark, rest) == Enclosed(part, mark, after);
      SplitRestUnfold(Enclosed(part, mark, after), mark);
      if Contains(part, mark) {
        NextPartStops(part, mark, after);
      } else {
        LineDoesNotAddMark(part, mark);
        FirstMark(part + EOL, mark, after);
        NextPartOfEnclosed(part, mark, after);
        assert parts == [part] + others;
        if others == [] {
          assert pads[1..] == [] && parts == [part];
          NoStrictParts(mark);
          NotALineEnd(rest, mark);
        } else {
          DelimitedStart(pads[1..], others, mark, rest);
          SplitRestOfDelimited(pads[1..], others, mark, rest);
        }
      }
    }
  }

  lemma {:induction false} NoStrictParts(mark: string)
    ensures StrictParts(mark, [], [])
  {
  }

  /** Between two marks there is padding or a line end, but never the hyphens of the last one. */
  lemma {:induction false} DelimitedStart(pads: seq<string>, parts: seq<string>, mark: string, rest: string)
    requires |pads| == |parts| > 0 && IsPadding(pads[0])
    ensures !(LAST_SEPARATOR <= Delimited(pads, parts, mark, rest))
  {
    var s := Delimited(pads, parts, mark, rest);
    assert s[0] == if pads[0] == "" then '\r' else pads[0][0];
  }

  lemma {:induction false} HyphensThenLineEnd(closing: string)
    ensures LAST_SEPARATOR <= "--" + closing <==> EOL <= closing
  {
    var s := "--" + closing;
    assert s[2..] == closing;
    assert LAST_SEPARATOR == "--" + EOL;
    if LAST_SEPARATOR <= s { assert s[2..4] == closing[..2] && LAST_SEPARATOR[2..4] == EOL; }
  }

  /**
   Whatever body the grammar allows, the splitter finds either all of its parts or none: all if and
   only if the mark stands nowhere but where the grammar puts it, no mark is padded, and a line
   end follows the last one.
   */
  lemma {:induction false} SplitOfMultipartBody(body: string, mark: string, preamble: string, pads: seq<string>,
      parts: seq<string>, closing: string)
    requires mark != [] && NoLineEnds(mark) && IsMultipartBody(body, mark, preamble, pads, parts, closing)
    ensures Split(body, mark) == if IsStrict(mark, preamble, pads, parts, closing) then parts else []
  {
    hide Find, Contains, OccursAt, NoLineIsMark, NoLineEnds, SplitRest, Delimited, StrictParts;
    var rest := "--" + closing;
    var after := Delimited(pads, parts, mark, rest);
    assert body == preamble + (mark + after);
    SplitRestOfDelimited(pads, parts, mark, rest);
    DelimitedStart(pads, parts, mark, rest);
    HyphensThenLineEnd(closing);
    if Contains(preamble, mark) {
      MarkInside(preamble, mark, mark + after);
      FindFirst(body, mark);
    } else {
      FirstMark(preamble, mark, after);
      var pos := |preamble|;
      assert body[pos + |mark|..] == after;
      if pos != 0 { assert body[pos - 2..pos] == preamble[pos - 2..]; }
    }
  }

  /** So for every accepted boundary and every body that the grammar allows: all parts or none, by the same condition. */
  lemma {:induction false} SplitOfLegalBody(body: string, boundary: string, preamble: string, pads: seq<string>,
      parts: seq<string>, closing: string)
    requires IsBoundary(boundary) && IsMultipartBody(body, "--" + boundary, preamble, pads, parts, closing)
    ensures var mark := "--" + boundary;
            Split(body, mark) == parts <==> IsStrict(mark, preamble, pads, parts, closing)
    ensures Split(body, "--" + boundary) in {parts, []}
  {
    hide Split, IsStrict, IsMultipartBody;
    MarkHasNoLineEnds(boundary);
    SplitOfMultipartBody(body, "--" + boundary, preamble, pads, parts, closing);
    assert parts != [] by { HasParts(body, "--" + boundary, preamble, pads, parts, closing); }
  }

  lemma {:induction false} HasParts(body: string, mark: string, preamble: string, pads: seq<string>, parts: seq<string>,
      closing: string)
    requires IsMultipartBody(body, mark, preamble, pads, parts, closing)
    ensures parts != []
  {
  }

  lemma {:induction false} MarkHasNoLineEnds(boundary: string)
    requires IsBoundary(boundary)
    ensures NoLineEnds("--" + boundary)
  {
    var mark := "--" + boundary;
    forall i | 0 <= i < |mark| ensures mark[i] != '\r' && mark[i] != '\n' {
      if i >= 2 { assert IsBchar(boundary[i - 2]) && mark[i] == boundary[i - 2]; }
    }
  }

  function Blank(n: nat): (pads: seq<string>)
    ensures |pads| == n && forall i :: 0 <= i < n ==> pads[i] == ""
  {
    seq(n, _ => "")
  }

  /** Conversely, what it finds are always the parts of a body that the grammar allows. */
  lemma {:induction false} SplitFindsLegalParts(body: string, mark: string) returns (preamble: string, closing: string)
    requires mark != [] && Split(body, mark) != []
    ensures var parts := Split(body, mark);
            IsMultipartBody(body, mark, preamble, Blank(|parts|), parts, closing)
  {
    hide Split, Find, OccursAt, Joined, Delimited;
    var epilogue: string;
    preamble, epilogue := SplitReassembles(body, mark);
    var parts := Split(body, mark);
    closing := EOL + epilogue;
    AssembleSplits(preamble, parts, epilogue, mark);
    JoinedIsDelimited(parts, mark, epilogue);
    assert IsPadding(closing[..0]) && EOL <= closing[0..];
    NothingContained(preamble, mark);
    forall i | 0 <= i < |parts| ensures NoLineIsMark(parts[i], mark) { NothingContained(parts[i], mark); }
  }

  lemma {:induction false} NothingContained(s: string, mark: string)
    requires !Contains(s, mark)
    ensures NoLineIsMark(s, mark)
  {
  }

  lemma {:induction false} JoinedIsDelimited(parts: seq<string>, mark: string, epilogue: string)
    ensures Joined(parts, mark) + LAST_SEPARATOR + epilogue == Delimited(Blank(|parts|), parts, mark, "--" + (EOL + epilogue))
    decreases |parts|
  {
    if parts == [] {
      assert Joined(parts, mark) + LAST_SEPARATOR + epilogue == "--" + (EOL + epilogue);
    } else {
      JoinedStep(parts, mark, epilogue);
      JoinedIsDelimited(parts[1..], mark, epilogue);
      assert Blank(|parts|)[1..] == Blank(|parts| - 1);
    }
  }

  // --------------------------------------------- three ways for a legal body to be refused

  lemma {:induction false} OnePart(pad: string, part: string, mark: string, rest: string)
    ensures Delimited([pad], [part], mark, rest) == pad + Enclosed(part, mark, rest)
  {
    assert [pad][1..] == [] && [part][1..] == [];
  }

  /** A mark inside of a line of a part. */
  lemma {:induction false} MarkInLineIsRefused()
    ensures IsMultipartBody("--b\r\nx--b\r\n--b--\r\n", "--b", "", [""], ["x--b"], "\r\n")
    ensures Split("--b\r\nx--b\r\n--b--\r\n", "--b") == []
  {
    var body, part, mark, closing := "--b\r\nx--b\r\n--b--\r\n", "x--b", "--b", "\r\n";
    OnePart("", part, mark, "--" + closing);
    assert closing[..0] == "" && closing[0..] == closing;
    assert body == "" + mark + ("" + Enclosed(part, mark, "--" + closing));
    assert part[0..3][0] != mark[0];
    assert OccursAt(part, mark, 1);
    SplitOfMultipartBody(body, mark, "", [""], [part], closing);
    assert !StrictParts(mark, [""], [part]) by { assert Contains([part][0], mark); }
  }

  /** No line end after the last mark. */
  lemma {:induction false} MissingLineEndIsRefused()
    ensures IsMultipartBody("--b\r\np\r\n--b--", "--b", "", [""], ["p"], "")
    ensures Split("--b\r\np\r\n--b--", "--b") == []
  {
    var body, part, mark, closing := "--b\r\np\r\n--b--", "p", "--b", "";
    OnePart("", part, mark, "--" + closing);
    assert closing[..0] == "";
    assert body == "" + mark + ("" + Enclosed(part, mark, "--" + closing));
    SplitOfMultipartBody(body, mark, "", [""], [part], closing);
  }

  /** Padding after a mark. */
  lemma {:induction false} PaddingIsRefused()
    ensures IsMultipartBody("--b \r\np\r\n--b--\r\n", "--b", "", [" "], ["p"], "\r\n")
    ensures Split("--b \r\np\r\n--b--\r\n", "--b") == []
  {
    var body, part, mark, closing := "--b \r\np\r\n--b--\r\n", "p", "--b", "\r\n";
    OnePart(" ", part, mark, "--" + closing);
    assert closing[..0] == "" && closing[0..] == closing;
    assert body == "" + mark + (" " + Enclosed(part, mark, "--" + closing));
    SplitOfMultipartBody(body, mark, "", [" "], [part], closing);
    assert !StrictParts(mark, [" "], [part]) by { assert [" "][0] != ""; }
  }

  // ------------------------------------------------------------------- methods

  /** True when the value is legal. */
  method CheckBoundaryValue(value: string) returns (ok: bool)
    ensures ok <==> IsBoundary(value)
  {
    if 1 <= |value| <= 70 {
      var lastIndex := |value| - 1;
      var i := 0;
      while i != lastIndex
        invariant 0 <= i <= lastIndex
        invariant forall j :: 0 <= j < i ==> IsBchar(value[j])
      {
        if !IsBchar(value[i]) {
          return false;
        }
        i := i + 1;
      }
      ok := IsBcharNoSpace(value[lastIndex]);
    } else {
      ok := false;
    }
  }

  method SplitMultipartBody(body: string, boundary: string) returns (result: seq<string>)
    ensures result == Split(body, boundary)
  {
    hide Find, Contains, OccursAt, SplitRest;
    result := [];
    FindFirst(body, boundary);
    var found := Find(body, boundary);
    if found.None? {
      return;
    }
    var pos := found.value;
    if pos != 0 && (pos < |EOL| || body[pos - |EOL|..pos] != EOL) {
      return;
    }
    var remaining := body[pos + |boundary|..];
    if LAST_SEPARATOR <= remaining {
      return;
    }
    ghost var whole := SplitRest(remaining, boundary);
    var tmp: seq<string> := [];
    PrependNone(whole);
    while EOL <= remaining
      invariant whole == Prepend(tmp, SplitRest(remaining, boundary))
      decreases |remaining|
    {
      SplitRestUnfold(remaining, boundary);
      ghost var next := NextPart(remaining, boundary);
      remaining := remaining[|EOL|..];
      FindFirst(remaining, boundary);
      found := Find(remaining, boundary);
      if found.None? {
        return;
      }
      pos := found.value;
      if pos < |EOL| || remaining[pos - |EOL|..pos] != EOL {
        return;
      }
      ghost var before := tmp;
      var part := remaining[..pos - |EOL|];
      tmp := tmp + [part];
      remaining := remaining[pos + |boundary|..];
      assert next == Some((part, remaining));
      if LAST_SEPARATOR <= remaining {
        return tmp;
      }
      PrependOne(before, part, SplitRest(remaining, boundary));
    }
    SplitRestUnfold(remaining, boundary);
  }
}
