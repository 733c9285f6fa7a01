/** The review normaliser `clean_text`: after contraction expansion, the text is
    lower-cased, HTML-like tags become a space, every character that is neither
    a-z nor whitespace becomes a space, and whitespace runs are collapsed and
    trimmed. Each step is a function here; the chain is `Normalize`. */
module TextClean {
  import opened Wrappers

  /** Python's `str.isspace()`. The same set is what `\s` matches in a `str`
      regular expression and what `str.strip()` removes. */
  predicate IsSpace(c: char)
  {
    ('\t' <= c <= '\r') || ('\U{1C}' <= c <= ' ') || c == '\U{85}' || c == '\U{A0}'
    || c == '\U{1680}' || ('\U{2000}' <= c <= '\U{200A}') || c == '\U{2028}'
    || c == '\U{2029}' || c == '\U{202F}' || c == '\U{205F}' || c == '\U{3000}'
  }

  predicate IsLetter(c: char) { 'a' <= c <= 'z' }

  predicate IsUpper(c: char) { 'A' <= c <= 'Z' }

  // ---------------------------------------------------------------------------
  // Character filters used to state what the normaliser keeps

  /** The a-z characters of `s`, in order. */
  function Letters(s: string): (r: string)
    ensures forall i :: 0 <= i < |r| ==> IsLetter(r[i])
    ensures |r| <= |s|
  {
    if s == [] then [] else (if IsLetter(s[0]) then [s[0]] else []) + Letters(s[1..])
  }

  /** The characters of `s` that are not whitespace, in order. */
  function NonSpace(s: string): (r: string)
    ensures forall i :: 0 <= i < |r| ==> !IsSpace(r[i])
    ensures |r| <= |s|
  {
    if s == [] then [] else (if IsSpace(s[0]) then [] else [s[0]]) + NonSpace(s[1..])
  }

  lemma {:induction false} NonSpaceAppend(a: string, b: string)
    ensures NonSpace(a + b) == NonSpace(a) + NonSpace(b)
  {
    if a == [] {
      assert a + b == b;
    } else {
      assert (a + b)[1..] == a[1..] + b;
      NonSpaceAppend(a[1..], b);
    }
  }

  lemma {:induction false} LettersAppend(a: string, b: string)
    ensures Letters(a + b) == Letters(a) + Letters(b)
  {
    if a == [] {
      assert a + b == b;
    } else {
      assert (a + b)[1..] == a[1..] + b;
      LettersAppend(a[1..], b);
    }
  }

  // ---------------------------------------------------------------------------
  // Step 1: text.lower()

  function LowerChar(c: char): char
  {
    if IsUpper(c) then (c as int + 32) as char else c
  }

  /** `str.lower()` on ASCII: 'A'..'Z' become 'a'..'z', every other character stays. */
  function Lower(s: string): (r: string)
    ensures |r| == |s|
    ensures forall i :: 0 <= i < |s| ==> !IsUpper(r[i])
    ensures forall i :: 0 <= i < |s| && !IsUpper(s[i]) ==> r[i] == s[i]
    ensures forall i :: 0 <= i < |s| && IsUpper(s[i]) ==> IsLetter(r[i]) && r[i] as int == s[i] as int + 32
  {
    if s == [] then [] else [LowerChar(s[0])] + Lower(s[1..])
  }

  // ---------------------------------------------------------------------------
  // Step 2: re.sub(r"<.*?>", " ", text)

  /** Looks for the end of a tag whose '<' has just been read: the position in `t`
      of the first '>', provided no newline comes before it ('.' does not match a
      newline, and `.*?` stops at the first '>'). */
  function TagBodyLength(t: string): (r: Option<nat>)
    ensures r.Some? ==> r.value < |t|
  {
    if t == [] then None
    else if t[0] == '>' then Some(0)
    else if t[0] == '\n' then None
    else
      match TagBodyLength(t[1..])
      case None => None
      case Some(n) => Some(n + 1)
  }

  /** The tag ends at the first '>' when no newline comes before it, and there is
      no tag when every '>' has a newline before it. */
  lemma {:induction false} TagBodyLengthSpec(t: string)
    ensures TagBodyLength(t).Some? ==>
      t[TagBodyLength(t).value] == '>' && TagBody(t[..TagBodyLength(t).value])
    ensures TagBodyLength(t).None? ==>
      forall k :: 0 <= k < |t| && t[k] == '>' ==> exists m :: 0 <= m < k && t[m] == '\n'
  {
    if t != [] && t[0] != '>' && t[0] != '\n' {
      TagBodyLengthSpec(t[1..]);
      if TagBodyLength(t).Some? {
        var n := TagBodyLength(t[1..]).value;
        assert t[..n + 1] == [t[0]] + t[1..][..n];
      } else {
        forall k | 0 <= k < |t| && t[k] == '>'
          ensures exists m :: 0 <= m < k && t[m] == '\n'
        {
          assert t[1..][k - 1] == '>';
          var m :| 0 <= m < k - 1 && t[1..][m] == '\n';
          assert t[m + 1] == '\n';
        }
      }
    }
  }

  /** A piece of the text as the tag pattern splits it: a character left alone, or a
      tag `<body>` that the substitution replaces. */
  datatype Segment = Plain(c: char) | Tag(body: string)

  /** What a tag's body may hold: no '>' (the match is the shortest one) and no newline. */
  predicate TagBody(body: string)
  {
    forall k :: 0 <= k < |body| ==> body[k] != '>' && body[k] != '\n'
  }

  /** The leftmost-first, non-overlapping matches of `<.*?>` in `s`, with the text between them. */
  function Segments(s: string): seq<Segment>
    decreases |s|
  {
    if s == [] then []
    else if s[0] == '<' && TagBodyLength(s[1..]).Some? then
      var n := TagBodyLength(s[1..]).value;
      [Tag(s[1..n + 1])] + Segments(s[n + 2..])
    else
      [Plain(s[0])] + Segments(s[1..])
  }

  /** Every tag found is a shortest match: its body holds no '>' and no newline. */
  lemma {:induction false} SegmentsTagBodies(s: string)
    ensures forall k :: 0 <= k < |Segments(s)| && Segments(s)[k].Tag? ==> TagBody(Segments(s)[k].body)
    decreases |s|
  {
    if s != [] {
      var segs := Segments(s);
      if s[0] == '<' && TagBodyLength(s[1..]).Some? {
        var n := TagBodyLength(s[1..]).value;
        TagBodyLengthSpec(s[1..]);
        assert s[1..n + 1] == s[1..][..n];
        SegmentsTagBodies(s[n + 2..]);
        assert segs[1..] == Segments(s[n + 2..]);
      } else {
        SegmentsTagBodies(s[1..]);
        assert segs[1..] == Segments(s[1..]);
      }
    }
  }

  function SegmentText(seg: Segment): string
  {
    match seg
    case Plain(c) => [c]
    case Tag(body) => "<" + body + ">"
  }

  /** Writes the pieces back out, tags included. */
  function Render(segs: seq<Segment>): string
  {
    if segs == [] then [] else SegmentText(segs[0]) + Render(segs[1..])
  }

  /** Replaces every tag by one space and keeps every other character. */
  function Blank(segs: seq<Segment>): (r: string)
    ensures |r| == |segs|
  {
    if segs == [] then []
    else (if segs[0].Tag? then " " else [segs[0].c]) + Blank(segs[1..])
  }

  /** The characters of `s` that are not inside a removed tag, in order. */
  function OutsideTags(s: string): string
  {
    PlainText(Segments(s))
  }

  function PlainText(segs: seq<Segment>): string
  {
    if segs == [] then [] else (if segs[0].Plain? then [segs[0].c] else []) + PlainText(segs[1..])
  }

  function StripTags(s: string): (r: string)
  {
    Blank(Segments(s))
  }

  lemma HeadTail(s: string)
    requires s != []
    ensures s == [s[0]] + s[1..]
  {
  }

  lemma RenderCons(seg: Segment, segs: seq<Segment>)
    ensures Render([seg] + segs) == SegmentText(seg) + Render(segs)
  {
    assert ([seg] + segs)[1..] == segs;
  }

  /** A tag found at the front spells out the text up to its '>'. */
  lemma TagText(s: string, n: nat)
    requires s != [] && s[0] == '<' && TagBodyLength(s[1..]) == Some(n)
    ensures n + 2 <= |s| && s == SegmentText(Tag(s[1..n + 1])) + s[n + 2..]
  {
    TagBodyLengthSpec(s[1..]);
    assert s[n + 1] == '>';
  }

  /** Splitting into pieces loses nothing: the pieces spell out the text again. */
  lemma {:induction false} SegmentsRender(s: string)
    ensures Render(Segments(s)) == s
    decreases |s|
  {
    if s != [] {
      if s[0] == '<' && TagBodyLength(s[1..]).Some? {
        var n := TagBodyLength(s[1..]).value;
        SegmentsRender(s[n + 2..]);
        RenderCons(Tag(s[1..n + 1]), Segments(s[n + 2..]));
        TagText(s, n);
      } else {
        SegmentsRender(s[1..]);
        RenderCons(Plain(s[0]), Segments(s[1..]));
        HeadTail(s);
      }
    }
  }

  /** What the leftmost-first, shortest matching of `<.*?>` demands of one piece,
      given the pieces after it: a tag has a shortest body, and a '<' left alone
      opens no tag in the text that follows it. */
  predicate MatchedHead(seg: Segment, rest: seq<Segment>)
  {
    && (seg.Tag? ==> TagBody(seg.body))
    && (seg == Plain('<') ==> TagBodyLength(Render(rest)).None?)
  }

  /** Every piece is as the matcher leaves it. */
  predicate Matched(segs: seq<Segment>)
  {
    forall k :: 0 <= k < |segs| ==> MatchedHead(segs[k], segs[k + 1..])
  }

  lemma MatchedCons(segs: seq<Segment>)
    requires segs != []
    ensures Matched(segs) <==> MatchedHead(segs[0], segs[1..]) && Matched(segs[1..])
  {
    forall k | 0 <= k < |segs| - 1
      ensures MatchedHead(segs[1..][k], segs[1..][k + 1..]) == MatchedHead(segs[k + 1], segs[k + 2..])
    {
      assert segs[1..][k + 1..] == segs[k + 2..];
    }
  }

  /** A shortest tag body is found again in front of its '>', whatever follows. */
  lemma {:induction false} TagBodyLengthOfTag(body: string, rest: string)
    requires TagBody(body)
    ensures TagBodyLength(body + ">" + rest) == Some(|body|)
  {
    if body != [] {
      assert (body + ">" + rest)[1..] == body[1..] + ">" + rest;
      TagBodyLengthOfTag(body[1..], rest);
    }
  }

  /** The pieces the matcher finds are matched. */
  lemma {:induction false} SegmentsMatched(s: string)
    ensures Matched(Segments(s))
    decreases |s|
  {
    if s != [] {
      var segs := Segments(s);
      if s[0] == '<' && TagBodyLength(s[1..]).Some? {
        var n := TagBodyLength(s[1..]).value;
        SegmentsMatched(s[n + 2..]);
        assert segs[1..] == Segments(s[n + 2..]);
        TagBodyLengthSpec(s[1..]);
        assert s[1..n + 1] == s[1..][..n];
      } else {
        SegmentsMatched(s[1..]);
        assert segs[1..] == Segments(s[1..]);
        SegmentsRender(s[1..]);
      }
      MatchedCons(segs);
    }
  }

  /** A tag in front is found as a tag. */
  lemma SegmentsOfTag(body: string, rest: string)
    requires TagBody(body)
    ensures Segments("<" + body + ">" + rest) == [Tag(body)] + Segments(rest)
  {
    var s := "<" + body + ">" + rest;
    TagBodyLengthOfTag(body, rest);
    assert s[1..] == body + ">" + rest;
    assert s[1..|body| + 1] == body;
    assert s[|body| + 2..] == rest;
  }

  /** A character in front that opens no tag is left alone. */
  lemma SegmentsOfPlain(c: char, rest: string)
    requires c == '<' ==> TagBodyLength(rest).None?
    ensures Segments([c] + rest) == [Plain(c)] + Segments(rest)
  {
    assert ([c] + rest)[1..] == rest;
  }

  /** Matched pieces that spell out a text are the matcher's pieces. */
  lemma {:induction false} SegmentsUnique(segs: seq<Segment>)
    requires Matched(segs)
    ensures Segments(Render(segs)) == segs
    decreases |segs|
  {
    if segs != [] {
      var rest := segs[1..];
      MatchedCons(segs);
      SegmentsUnique(rest);
      assert segs == [segs[0]] + rest;
      match segs[0]
      case Tag(body) =>
        SegmentsOfTag(body, Render(rest));
      case Plain(c) =>
        SegmentsOfPlain(c, Render(rest));
    }
  }

  /** The matcher's pieces are the one matched way to split a text into pieces
      that spell it out: `re.sub` skips no '<' that opens a tag. */
  lemma SegmentsCharacterised(s: string, segs: seq<Segment>)
    ensures segs == Segments(s) <==> Render(segs) == s && Matched(segs)
  {
    SegmentsRender(s);
    SegmentsMatched(s);
    if Render(segs) == s && Matched(segs) {
      SegmentsUnique(segs);
    }
  }

  /** Each removed tag becomes exactly one space, and every other character stays in place. */
  lemma StripTagsPerSegment(s: string)
    ensures |StripTags(s)| == |Segments(s)|
    ensures forall k :: 0 <= k < |Segments(s)| ==>
      StripTags(s)[k] == (if Segments(s)[k].Tag? then ' ' else Segments(s)[k].c)
  {
    BlankAt(Segments(s));
  }

  lemma {:induction false} BlankAt(segs: seq<Segment>)
    ensures forall k :: 0 <= k < |segs| ==> Blank(segs)[k] == (if segs[k].Tag? then ' ' else segs[k].c)
  {
    if segs != [] {
      BlankAt(segs[1..]);
    }
  }

  /** A text that holds a tag: a '<' followed by a '>' with no newline in between. */
  predicate HasTag(s: string)
  {
    exists i :: 0 <= i < |s| && s[i] == '<' && TagBodyLength(s[i + 1..]).Some?
  }

  /** Unfolds one step of `StripTags`. */
  lemma StripTagsStep(s: string)
    requires s != []
    ensures s[0] == '<' && TagBodyLength(s[1..]).Some? ==>
      var n := TagBodyLength(s[1..]).value;
      StripTags(s) == " " + StripTags(s[n + 2..])
    ensures !(s[0] == '<' && TagBodyLength(s[1..]).Some?) ==>
      StripTags(s) == [s[0]] + StripTags(s[1..])
  {
    var segs := Segments(s);
    assert Blank(segs) == (if segs[0].Tag? then " " else [segs[0].c]) + Blank(segs[1..]);
    if s[0] == '<' && TagBodyLength(s[1..]).Some? {
      var n := TagBodyLength(s[1..]).value;
      assert segs[1..] == Segments(s[n + 2..]);
    } else {
      assert segs[1..] == Segments(s[1..]);
    }
  }

  /** A '<' that opens no tag (a newline or the end comes before any '>') still
      opens none once the rest of the text has had its tags removed. */
  lemma {:induction false} UnclosedStaysUnclosed(t: string)
    requires TagBodyLength(t).None?
    ensures TagBodyLength(StripTags(t)).None?
    decreases |t|
  {
    if t != [] {
      StripTagsStep(t);
      if t[0] == '\n' {
        assert StripTags(t)[0] == '\n';
      } else {
        assert TagBodyLength(t[1..]).None?;
        assert !(t[0] == '<' && TagBodyLength(t[1..]).Some?);
        UnclosedStaysUnclosed(t[1..]);
        assert StripTags(t)[1..] == StripTags(t[1..]);
      }
    }
  }

  /** After the substitution no tag is left: every '<' that survives meets a newline,
      or the end, before any '>'. */
  lemma {:induction false} StripTagsLeavesNoTag(s: string)
    ensures !HasTag(StripTags(s))
    decreases |s|
  {
    if s != [] {
      StripTagsStep(s);
      if s[0] == '<' && TagBodyLength(s[1..]).Some? {
        var n := TagBodyLength(s[1..]).value;
        StripTagsLeavesNoTag(s[n + 2..]);
        NoTagCons(' ', StripTags(s[n + 2..]));
      } else {
        StripTagsLeavesNoTag(s[1..]);
        if s[0] == '<' {
          UnclosedStaysUnclosed(s[1..]);
        }
        NoTagCons(s[0], StripTags(s[1..]));
      }
    }
  }

  /** A character in front of a text without tags makes a tag only if it is a '<'
      that the text closes. */
  lemma NoTagCons(c: char, rest: string)
    requires !HasTag(rest)
    requires c == '<' ==> TagBodyLength(rest).None?
    ensures !HasTag([c] + rest)
  {
    var r := [c] + rest;
    forall i | 0 <= i < |r| && r[i] == '<'
      ensures TagBodyLength(r[i + 1..]).None?
    {
      ConsDrop(c, rest, i);
    }
  }

  lemma ConsDrop(c: char, rest: string, i: nat)
    requires i <= |rest|
    ensures ([c] + rest)[i + 1..] == rest[i..]
    ensures 0 < i ==> ([c] + rest)[i] == rest[i - 1]
  {
  }

  /** A text without tags passes through the substitution unchanged. */
  lemma {:induction false} StripTagsWithoutTag(s: string)
    requires !HasTag(s)
    ensures StripTags(s) == s
    decreases |s|
  {
    if s != [] {
      StripTagsStep(s);
      NoTagInTail(s);
      StripTagsWithoutTag(s[1..]);
      HeadTail(s);
    }
  }

  lemma NoTagInTail(s: string)
    requires s != [] && !HasTag(s)
    ensures !(s[0] == '<' && TagBodyLength(s[1..]).Some?)
    ensures !HasTag(s[1..])
  {
    forall i | 0 <= i < |s[1..]| && s[1..][i] == '<'
      ensures TagBodyLength(s[1..][i + 1..]).None?
    {
      assert s[1..][i + 1..] == s[i + 2..];
      assert s[i + 1] == '<';
    }
  }

  /** Removing tags twice is removing them once. */
  lemma StripTagsIdempotent(s: string)
    ensures StripTags(StripTags(s)) == StripTags(s)
  {
    StripTagsLeavesNoTag(s);
    StripTagsWithoutTag(StripTags(s));
  }

  /** The letters left after removing tags are exactly the letters outside the tags. */
  lemma {:induction false} StripTagsLetters(s: string)
    ensures Letters(StripTags(s)) == Letters(OutsideTags(s))
  {
    BlankLetters(Segments(s));
  }

  lemma {:induction false} BlankLetters(segs: seq<Segment>)
    ensures Letters(Blank(segs)) == Letters(PlainText(segs))
  {
    if segs != [] {
      var head := if segs[0].Tag? then " " else [segs[0].c];
      var plain := if segs[0].Plain? then [segs[0].c] else [];
      LettersAppend(head, Blank(segs[1..]));
      LettersAppend(plain, PlainText(segs[1..]));
      BlankLetters(segs[1..]);
    }
  }

  // ---------------------------------------------------------------------------
  // Step 3: re.sub(r"[^a-z\s]", " ", text)

  /** Every character that is neither a-z nor whitespace becomes a space. */
  function KeepLetters(s: string): (r: string)
    ensures |r| == |s|
    ensures forall i :: 0 <= i < |s| ==> IsLetter(r[i]) || IsSpace(r[i])
    ensures forall i :: 0 <= i < |s| && (IsLetter(s[i]) || IsSpace(s[i])) ==> r[i] == s[i]
    ensures forall i :: 0 <= i < |s| && !IsLetter(s[i]) && !IsSpace(s[i]) ==> r[i] == ' '
  {
    if s == [] then []
    else [if IsLetter(s[0]) || IsSpace(s[0]) then s[0] else ' '] + KeepLetters(s[1..])
  }

  lemma {:induction false} KeepLettersLetters(s: string)
    ensures Letters(KeepLetters(s)) == Letters(s)
  {
    if s != [] {
      assert KeepLetters(s)[1..] == KeepLetters(s[1..]);
      KeepLettersLetters(s[1..]);
    }
  }

  // ---------------------------------------------------------------------------
  // Step 4: re.sub(r"\s+", " ", text).strip()

  /** `str.lstrip()`. */
  function StripLeft(s: string): (r: string)
    ensures |r| <= |s|
  {
    if s != [] && IsSpace(s[0]) then StripLeft(s[1..]) else s
  }

  /** `str.rstrip()`. */
  function StripRight(s: string): string
  {
    if s != [] && IsSpace(s[|s| - 1]) then StripRight(s[..|s| - 1]) else s
  }

  /** `str.lstrip()` drops the leading whitespace and nothing else. */
  lemma {:induction false} StripLeftSpec(s: string)
    ensures StripLeft(s) == s[|s| - |StripLeft(s)|..]
    ensures StripLeft(s) == [] || !IsSpace(StripLeft(s)[0])
    ensures forall i :: 0 <= i < |s| - |StripLeft(s)| ==> IsSpace(s[i])
    ensures NonSpace(StripLeft(s)) == NonSpace(s)
  {
    if s != [] && IsSpace(s[0]) {
      StripLeftSpec(s[1..]);
    }
  }

  /** `str.rstrip()` drops the trailing whitespace and nothing else. */
  lemma {:induction false} StripRightSpec(s: string)
    ensures |StripRight(s)| <= |s| && StripRight(s) == s[..|StripRight(s)|]
    ensures StripRight(s) == [] || !IsSpace(StripRight(s)[|StripRight(s)| - 1])
    ensures forall i :: |StripRight(s)| <= i < |s| ==> IsSpace(s[i])
  {
    if s != [] && IsSpace(s[|s| - 1]) {
      var p := s[..|s| - 1];
      var r := StripRight(p);
      StripRightSpec(p);
      assert s[..|r|] == p[..|r|];
      forall i | |r| <= i < |s|
        ensures IsSpace(s[i])
      {
        if i < |p| {
          assert s[i] == p[i];
        }
      }
    }
  }

  /** The characters that are not whitespace all stay. */
  lemma {:induction false} StripRightNonSpace(s: string)
    ensures NonSpace(StripRight(s)) == NonSpace(s)
  {
    if s != [] && IsSpace(s[|s| - 1]) {
      var p := s[..|s| - 1];
      StripRightNonSpace(p);
      assert s == p + [s[|s| - 1]];
      NonSpaceAppend(p, [s[|s| - 1]]);
      assert NonSpace([s[|s| - 1]]) == [];
      assert NonSpace(p) + [] == NonSpace(p);
    }
  }

  /** `str.strip()`. */
  function Strip(s: string): string
  {
    StripRight(StripLeft(s))
  }

  /** `str.strip()` drops the whitespace at both ends and nothing else: what is left
      is the stretch of the input from `a` on, with whitespace only before and after
      it, and neither end of it is whitespace. */
  lemma StripIsStretch(s: string) returns (a: nat)
    ensures a + |Strip(s)| <= |s| && Strip(s) == s[a..a + |Strip(s)|]
    ensures forall i :: 0 <= i < a ==> IsSpace(s[i])
    ensures forall i :: a + |Strip(s)| <= i < |s| ==> IsSpace(s[i])
    ensures Strip(s) == [] || (!IsSpace(Strip(s)[0]) && !IsSpace(Strip(s)[|Strip(s)| - 1]))
    ensures NonSpace(Strip(s)) == NonSpace(s)
  {
    var l := StripLeft(s);
    var r := StripRight(l);
    StripLeftSpec(s);
    StripRightSpec(l);
    StripRightNonSpace(l);
    a := |s| - |l|;
    TakeOfDrop(s, a, |r|);
    forall i | a + |r| <= i < |s|
      ensures IsSpace(s[i])
    {
      assert s[i] == l[i - a];
    }
    if r != [] {
      assert r[0] == l[0];
    }
  }

  lemma TakeOfDrop(s: string, a: nat, m: nat)
    requires a + m <= |s|
    ensures s[a..][..m] == s[a..a + m]
  {
  }

  /** `re.sub(r"\s+", " ", s)`: every maximal run of whitespace becomes one ' '. */
  function Squeeze(s: string): string
  {
    SqueezeAfter(s, false)
  }

  /** Squeezes `s` when `afterSpace` says whether the character before `s` was
      whitespace: the first whitespace character of a run becomes ' ', the rest of
      the run is dropped, and every other character stays. */
  function SqueezeAfter(s: string, afterSpace: bool): string
  {
    if s == [] then []
    else if IsSpace(s[0]) && afterSpace then SqueezeAfter(s[1..], true)
    else if IsSpace(s[0]) then " " + SqueezeAfter(s[1..], true)
    else [s[0]] + SqueezeAfter(s[1..], false)
  }

  /** The only whitespace is ' ', and never two in a row. */
  predicate SingleSpaced(r: string)
  {
    && (forall i :: 0 <= i < |r| && IsSpace(r[i]) ==> r[i] == ' ')
    && (forall i :: 0 <= i < |r| - 1 ==> !(IsSpace(r[i]) && IsSpace(r[i + 1])))
  }

  /** After squeezing, the only whitespace is ' ', and never two in a row; a text
      squeezed after whitespace does not start with whitespace. */
  lemma {:induction false} SqueezeSpacing(s: string, afterSpace: bool)
    ensures SingleSpaced(SqueezeAfter(s, afterSpace))
    ensures afterSpace && SqueezeAfter(s, afterSpace) != [] ==> !IsSpace(SqueezeAfter(s, afterSpace)[0])
  {
    if s != [] {
      var r := SqueezeAfter(s, afterSpace);
      if !IsSpace(s[0]) {
        var q := SqueezeAfter(s[1..], false);
        SqueezeSpacing(s[1..], false);
        assert r == [s[0]] + q;
        assert forall i :: 1 <= i < |r| ==> r[i] == q[i - 1];
      } else if afterSpace {
        SqueezeSpacing(s[1..], true);
      } else {
        var q := SqueezeAfter(s[1..], true);
        SqueezeSpacing(s[1..], true);
        assert r == " " + q;
        assert forall i :: 1 <= i < |r| ==> r[i] == q[i - 1];
      }
    }
  }

  /** Squeezing changes whitespace only: the other characters stay, in order. */
  lemma {:induction false} SqueezeNonSpace(s: string, afterSpace: bool)
    ensures NonSpace(SqueezeAfter(s, afterSpace)) == NonSpace(s)
  {
    if s != [] {
      if IsSpace(s[0]) {
        var q := SqueezeAfter(s[1..], true);
        SqueezeNonSpace(s[1..], true);
        assert NonSpace(s) == NonSpace(s[1..]);
        if !afterSpace {
          assert (" " + q)[1..] == q;
        }
      } else {
        var q := SqueezeAfter(s[1..], false);
        SqueezeNonSpace(s[1..], false);
        assert ([s[0]] + q)[1..] == q;
      }
    }
  }

  /** Squeezing a run of whitespace after a character that was not whitespace
      leaves one ' ', and after whitespace nothing. */
  lemma {:induction false} SqueezeSkipRun(s: string, afterSpace: bool)
    requires s != [] && IsSpace(s[0])
    ensures afterSpace ==> SqueezeAfter(s, afterSpace) == Squeeze(StripLeft(s))
    ensures !afterSpace ==> SqueezeAfter(s, afterSpace) == " " + Squeeze(StripLeft(s))
    decreases |s|
  {
    var t := s[1..];
    if t == [] || !IsSpace(t[0]) {
      assert StripLeft(s) == t;
      assert SqueezeAfter(t, true) == SqueezeAfter(t, false);
    } else {
      SqueezeSkipRun(t, true);
      assert StripLeft(s) == StripLeft(t);
    }
  }

  /** The two steps of line 20 together. */
  function Collapse(s: string): string
  {
    Strip(Squeeze(s))
  }

  // ---------------------------------------------------------------------------
  // Reference definition of line 20: `" ".join(s.split())`

  /** The number of leading characters of `t` that are not whitespace. */
  function WordLength(t: string): (n: nat)
    ensures n <= |t|
    ensures forall i :: 0 <= i < n ==> !IsSpace(t[i])
    ensures n < |t| ==> IsSpace(t[n])
  {
    if t == [] || IsSpace(t[0]) then 0 else 1 + WordLength(t[1..])
  }

  /** `str.split()` without a separator: the maximal runs of non-whitespace, in order. */
  function Words(s: string): seq<string>
    decreases |s|
  {
    var t := StripLeft(s);
    if t == [] then []
    else
      var n := WordLength(t);
      [t[..n]] + Words(t[n..])
  }

  /** `" ".join(ws)`. */
  function JoinWords(ws: seq<string>): string
  {
    if ws == [] then [] else if |ws| == 1 then ws[0] else ws[0] + " " + JoinWords(ws[1..])
  }

  lemma ConcatAssoc(a: string, b: string, c: string)
    ensures a + (b + c) == (a + b) + c
  {
  }

  /** Squeezing leaves a leading word alone. */
  lemma {:induction false} SqueezeWordFirst(t: string, n: nat)
    requires n == WordLength(t)
    ensures Squeeze(t) == t[..n] + Squeeze(t[n..])
    decreases n
  {
    if n == 0 {
      assert t[..n] == [] && t[n..] == t;
    } else {
      var t', q := t[1..], Squeeze(t[n..]);
      assert Squeeze(t) == [t[0]] + Squeeze(t');
      SqueezeWordFirst(t', n - 1);
      SplitAfterHead(t, n);
      ConcatAssoc([t[0]], t'[..n - 1], q);
    }
  }

  lemma SplitAfterHead(t: string, n: nat)
    requires 1 <= n <= |t|
    ensures t[1..][n - 1..] == t[n..] && [t[0]] + t[1..][..n - 1] == t[..n]
  {
  }

  lemma {:induction false} StripRightKeepsFront(a: string, b: string)
    requires b != [] && !IsSpace(b[0])
    ensures StripRight(a + b) == a + StripRight(b)
    decreases |b|
  {
    var ab := a + b;
    if IsSpace(b[|b| - 1]) {
      var b' := b[..|b| - 1];
      assert ab[|ab| - 1] == b[|b| - 1];
      assert ab[..|ab| - 1] == a + b';
      StripRightKeepsFront(a, b');
    } else {
      assert ab[|ab| - 1] == b[|b| - 1];
    }
  }

  lemma JoinWordsCons(w: string, ws: seq<string>)
    requires ws != []
    ensures JoinWords([w] + ws) == w + " " + JoinWords(ws)
  {
    assert ([w] + ws)[1..] == ws;
  }

  /** Leading whitespace makes no difference to the collapsed text. */
  lemma CollapseSkipLead(s: string)
    ensures Collapse(s) == Collapse(StripLeft(s))
  {
    if s != [] && IsSpace(s[0]) {
      var x := Squeeze(StripLeft(s));
      SqueezeSkipRun(s, false);
      assert (" " + x)[1..] == x;
      assert StripLeft(" " + x) == StripLeft(x);
    }
  }

  /** A word, alone or followed by one space, strips to itself. */
  lemma StripWord(w: string, q: string)
    requires w != [] && !IsSpace(w[0]) && !IsSpace(w[|w| - 1])
    requires q == [] || q == " "
    ensures Strip(w + q) == w
  {
    var u := w + q;
    assert StripLeft(u) == u by {
      assert u[0] == w[0];
    }
    if q == [] {
      assert u == w;
    } else {
      assert StripRight(u) == StripRight(w) by {
        assert u[..|u| - 1] == w;
      }
    }
  }

  /** Whitespace alone squeezes to one space, or to nothing when there is none. */
  lemma SqueezeSpaces(r: string)
    requires StripLeft(r) == []
    ensures Squeeze(r) == [] || Squeeze(r) == " "
  {
    if r != [] {
      SqueezeSkipRun(r, false);
    }
  }

  /** A word followed by nothing but whitespace collapses to the word. */
  lemma CollapseLastWord(t: string, n: nat)
    requires t != [] && !IsSpace(t[0]) && n == WordLength(t)
    requires StripLeft(t[n..]) == []
    ensures Collapse(t) == t[..n]
  {
    SqueezeWordFirst(t, n);
    SqueezeSpaces(t[n..]);
    StripWord(t[..n], Squeeze(t[n..]));
  }

  /** A word followed by whitespace and more text collapses to the word, one space,
      and the rest collapsed. */
  lemma CollapseNextWord(t: string, n: nat)
    requires t != [] && !IsSpace(t[0]) && n == WordLength(t)
    requires StripLeft(t[n..]) != []
    ensures Collapse(t) == t[..n] + " " + Collapse(StripLeft(t[n..]))
  {
    var w, rest := t[..n], t[n..];
    var x := Squeeze(StripLeft(rest));
    StripLeftSpec(rest);
    SqueezeWordFirst(t, n);
    SqueezeSkipRun(rest, false);
    ConcatAssoc(w, " ", x);
    assert StripLeft(x) == x;
    assert StripLeft((w + " ") + x) == (w + " ") + x;
    StripRightKeepsFront(w + " ", x);
  }

  /** Squeezing the whitespace runs and stripping the ends gives the words joined by
      single spaces. */
  lemma {:induction false} CollapseIsJoinWords(s: string)
    ensures Collapse(s) == JoinWords(Words(s))
    decreases |s|
  {
    var t := StripLeft(s);
    StripLeftSpec(s);
    if t == [] {
      CollapseSkipLead(s);
    } else {
      var n := WordLength(t);
      var w, rest' := t[..n], StripLeft(t[n..]);
      assert Words(s) == [w] + Words(rest') by {
        StripLeftSpec(t[n..]);
        assert StripLeft(rest') == rest';
      }
      if rest' == [] {
        assert Collapse(s) == w by {
          CollapseSkipLead(s);
          CollapseLastWord(t, n);
        }
      } else {
        assert Collapse(s) == w + " " + Collapse(rest') by {
          CollapseSkipLead(s);
          CollapseNextWord(t, n);
        }
        CollapseIsJoinWords(rest');
        assert Words(rest') != [] by {
          StripLeftSpec(t[n..]);
          assert StripLeft(rest') == rest';
        }
        JoinWordsCons(w, Words(rest'));
      }
    }
  }

  // ---------------------------------------------------------------------------
  // The chain

  /** Only a-z and ' ', never a space at either end, never two spaces in a row. */
  predicate Normalized(s: string)
  {
    && (forall i :: 0 <= i < |s| ==> IsLetter(s[i]) || s[i] == ' ')
    && (s != [] ==> s[0] != ' ' && s[|s| - 1] != ' ')
    && (forall i :: 0 <= i < |s| - 1 ==> !(s[i] == ' ' && s[i + 1] == ' '))
  }

  /** Lines 17-20 of `clean_text`: everything after contraction expansion. */
  function Normalize(s: string): string
  {
    Collapse(KeepLetters(StripTags(Lower(s))))
  }

  /** `clean_text`: contraction expansion (`fix`, a library outside this model)
      followed by the normaliser. */
  function CleanText(text: string, fix: string -> string): string
  {
    Normalize(fix(text))
  }

  /** Squeezing a text made of letters and whitespace leaves letters and ' '. */
  lemma {:induction false} SqueezeAlphabet(u: string, afterSpace: bool)
    requires forall i :: 0 <= i < |u| ==> IsLetter(u[i]) || IsSpace(u[i])
    ensures forall i :: 0 <= i < |SqueezeAfter(u, afterSpace)| ==>
      IsLetter(SqueezeAfter(u, afterSpace)[i]) || SqueezeAfter(u, afterSpace)[i] == ' '
  {
    if u != [] {
      var r := SqueezeAfter(u, afterSpace);
      if !IsSpace(u[0]) {
        var q := SqueezeAfter(u[1..], false);
        SqueezeAlphabet(u[1..], false);
        assert r == [u[0]] + q;
        assert forall i :: 1 <= i < |r| ==> r[i] == q[i - 1];
      } else if afterSpace {
        SqueezeAlphabet(u[1..], true);
      } else {
        var q := SqueezeAfter(u[1..], true);
        SqueezeAlphabet(u[1..], true);
        assert r == " " + q;
        assert forall i :: 1 <= i < |r| ==> r[i] == q[i - 1];
      }
    }
  }

  /** A stretch of a text keeps its single spacing. */
  lemma SpacingOfStretch(q: string, a: nat, r: string)
    requires a + |r| <= |q| && r == q[a..a + |r|]
    requires forall i :: 0 <= i < |q| ==> IsLetter(q[i]) || q[i] == ' '
    requires forall i :: 0 <= i < |q| - 1 ==> !(IsSpace(q[i]) && IsSpace(q[i + 1]))
    ensures forall i :: 0 <= i < |r| ==> IsLetter(r[i]) || r[i] == ' '
    ensures forall i :: 0 <= i < |r| - 1 ==> !(r[i] == ' ' && r[i + 1] == ' ')
  {
    forall i | 0 <= i < |r|
      ensures r[i] == q[a + i]
    {
    }
  }

  /** Collapsing a text made of letters and whitespace leaves a normalised text. */
  lemma CollapseNormalized(u: string)
    requires forall i :: 0 <= i < |u| ==> IsLetter(u[i]) || IsSpace(u[i])
    ensures Normalized(Collapse(u))
    ensures NonSpace(Collapse(u)) == NonSpace(u)
  {
    SqueezeAlphabet(u, false);
    SqueezeSpacing(u, false);
    SqueezeNonSpace(u, false);
    StripNormalized(Squeeze(u));
    var _ := StripIsStretch(Squeeze(u));
  }

  /** Stripping a text of letters and single spaces leaves a normalised text. */
  lemma StripNormalized(q: string)
    requires forall i :: 0 <= i < |q| ==> IsLetter(q[i]) || q[i] == ' '
    requires forall i :: 0 <= i < |q| - 1 ==> !(IsSpace(q[i]) && IsSpace(q[i + 1]))
    ensures Normalized(Strip(q))
  {
    var a := StripIsStretch(q);
    SpacingOfStretch(q, a, Strip(q));
  }

  /** The output alphabet is a-z and ' ', with single spaces and no space at either end. */
  lemma NormalizeNormalized(s: string)
    ensures Normalized(Normalize(s))
  {
    CollapseNormalized(KeepLetters(StripTags(Lower(s))));
  }

  /** In a normalised text the non-space characters are its letters. */
  lemma {:induction false} NonSpaceOfLettersAndSpaces(s: string)
    requires forall i :: 0 <= i < |s| ==> IsLetter(s[i]) || IsSpace(s[i])
    ensures NonSpace(s) == Letters(s)
  {
    if s != [] {
      NonSpaceOfLettersAndSpaces(s[1..]);
    }
  }

  /** The words of the result, read without their spaces, are exactly the letters of
      the lower-cased text that lie outside the removed tags, in order. */
  lemma NormalizeKeepsLetters(s: string)
    ensures NonSpace(Normalize(s)) == Letters(OutsideTags(Lower(s)))
  {
    var t := StripTags(Lower(s));
    var u := KeepLetters(t);
    CollapseNormalized(u);
    NonSpaceOfLettersAndSpaces(u);
    KeepLettersLetters(t);
    StripTagsLetters(Lower(s));
  }

  /** The result is empty exactly when no letter stands outside the tags. */
  lemma NormalizeEmpty(s: string)
    ensures Normalize(s) == [] <==> Letters(OutsideTags(Lower(s))) == []
  {
    NormalizeKeepsLetters(s);
    NormalizeNormalized(s);
    var r := Normalize(s);
    if r != [] {
      assert !IsSpace(r[0]);
      assert NonSpace(r) == [r[0]] + NonSpace(r[1..]);
    }
  }

  /** A text whose only whitespace is single ' ' is already squeezed. */
  lemma {:induction false} SqueezeUnchanged(s: string, afterSpace: bool)
    requires forall i :: 0 <= i < |s| && IsSpace(s[i]) ==> s[i] == ' '
    requires forall i :: 0 <= i < |s| - 1 ==> !(s[i] == ' ' && s[i + 1] == ' ')
    requires afterSpace && s != [] ==> !IsSpace(s[0])
    ensures SqueezeAfter(s, afterSpace) == s
  {
    if s != [] {
      SqueezeUnchanged(s[1..], IsSpace(s[0]));
    }
  }

  lemma LowerUnchanged(s: string)
    requires forall i :: 0 <= i < |s| ==> !IsUpper(s[i])
    ensures Lower(s) == s
  {
  }

  lemma KeepLettersUnchanged(s: string)
    requires forall i :: 0 <= i < |s| ==> IsLetter(s[i]) || IsSpace(s[i])
    ensures KeepLetters(s) == s
  {
  }

  lemma StripUnchanged(s: string)
    requires s == [] || (!IsSpace(s[0]) && !IsSpace(s[|s| - 1]))
    ensures Strip(s) == s
  {
  }

  /** A normalised text is its own normal form. */
  lemma NormalizeFixes(s: string)
    requires Normalized(s)
    ensures Normalize(s) == s
  {
    FirstStepsFix(s);
    CollapseFixes(s);
  }

  /** Lower-casing, removing tags and replacing other characters leave a normalised text alone. */
  lemma FirstStepsFix(s: string)
    requires Normalized(s)
    ensures KeepLetters(StripTags(Lower(s))) == s
  {
    LowerUnchanged(s);
    NormalizedHasNoTag(s);
    StripTagsWithoutTag(s);
    KeepLettersUnchanged(s);
  }

  /** Collapsing leaves a normalised text alone. */
  lemma CollapseFixes(s: string)
    requires Normalized(s)
    ensures Collapse(s) == s
  {
    SqueezeUnchanged(s, false);
    StripUnchanged(s);
  }

  lemma NormalizedHasNoTag(s: string)
    requires Normalized(s)
    ensures !HasTag(s)
  {
    forall i | 0 <= i < |s|
      ensures s[i] != '<'
    {
    }
  }

  /** The normaliser is idempotent. */
  lemma NormalizeIdempotent(s: string)
    ensures Normalize(Normalize(s)) == Normalize(s)
  {
    NormalizeNormalized(s);
    NormalizeFixes(Normalize(s));
  }
}
