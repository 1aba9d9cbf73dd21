/** The path parser: a linked list of parts built by pointers, over buffers that are freed on the way. */
module PathParser {
  import opened Machine
  import opened Strings
  import HeapTable

  const SLASH: byte := 47
  const COLON: byte := 58
  const MAX_PATH := 256
  const BLOCK := HeapTable.BLOCK_SIZE

  /** malloc of n bytes, at least one: a buffer of whole blocks. */
  method Malloc(n: nat) returns (a: array<byte>)
    requires n > 0
    ensures fresh(a) && n <= a.Length && BLOCK <= a.Length
  {
    a := new byte[(n + BLOCK - 1) / BLOCK * BLOCK];
  }

  /** free: the buffer's first block reads as zero (HeapTable.FreedBlockReadsZero), and its memory can still be read. */
  method Free(a: array<byte>)
    requires BLOCK <= a.Length
    modifies a
    ensures Holds(a, [])
  {
    for i := 0 to BLOCK
      invariant forall k | 0 <= k < i :: a[k] == 0
    {
      a[i] := 0;
    }
  }

  /** The buffer holds the given text. */
  ghost predicate Holds(a: array<byte>, text: seq<byte>)
    reads a
  {
    && |text| < a.Length && |text| < 0x1_0000 && a[|text|] == NUL
    && forall i | 0 <= i < |text| :: a[i] == text[i] && text[i] != NUL
  }

  lemma HoldsString(a: array<byte>, text: seq<byte>)
    requires Holds(a, text)
    ensures IsString(a[..]) && CStr(a[..]) == text && CLen(a[..]) == |text|
  {
    assert forall i | 0 <= i < |text| :: a[i] == a[..|text|][i];
    CLenIs(a[..], |text|);
    assert a[..][..|text|] == a[..|text|];
  }

  /** str_slice: characters start to end, the one at end included; the whole string when start lies behind end. */
  method StrSlice(output: array<byte>, str: array<byte>, start: nat, end: nat)
    requires output != str
    requires if start <= end then end < str.Length && end - start + 2 <= output.Length
             else CLen(str[..]) < str.Length && CLen(str[..]) < output.Length
    modifies output
    ensures start <= end ==> output[..end - start + 1] == str[start..end + 1] && output[end - start + 1] == NUL
    ensures start > end ==> output[..CLen(str[..])] == CStr(str[..]) && output[CLen(str[..])] == NUL
  {
    if start > end {
      StrRefCopy(output, str);
      return;
    }
    var index, s := 0, start;
    while s <= end
      invariant start <= s <= end + 1 && index == s - start
      invariant forall k | 0 <= k < index :: output[k] == str[start + k]
    {
      output[index] := str[s];
      index := index + 1;
      s := s + 1;
    }
    output[index] := NUL;
  }

  /** str_copy, as a new buffer; an empty string is not copied but replaced by a constant one. */
  method StrCopy(str: array<byte>, ghost text: seq<byte>) returns (copy: array<byte>)
    requires Holds(str, text)
    ensures fresh(copy) && Holds(copy, text)
  {
    HoldsString(str, text);
    var size := StrLen(str);
    if size <= 0 {
      copy := new byte[1](_ => NUL);
      return;
    }
    copy := Malloc(size + 1);
    forall k | 0 <= k < |text| ensures str[k] == text[k] && text[k] != NUL {
      assert str[k] == str[..|text|][k];
    }
    var index := 0;
    while str[index] != NUL
      invariant 0 <= index <= |text| && str[..|text|] == text && copy[..index] == text[..index]
      invariant forall k | 0 <= k < |text| :: str[k] == text[k] && text[k] != NUL
      decreases |text| - index
    {
      copy[index] := str[index];
      index := index + 1;
    }
    copy[index] := NUL;
  }

  /** The index of the first slash, or -1. */
  function FirstSlash(s: seq<byte>): (r: int)
    ensures -1 <= r < |s|
  {
    if s == [] then -1
    else if s[0] == SLASH then 0
    else var r := FirstSlash(s[1..]); if r < 0 then -1 else r + 1
  }

  lemma {:induction false} FirstSlashFinds(s: seq<byte>)
    ensures var r := FirstSlash(s);
            if r >= 0 then s[r] == SLASH && SLASH !in s[..r] else SLASH !in s
  {
    if s != [] && s[0] != SLASH {
      FirstSlashFinds(s[1..]);
      var r := FirstSlash(s);
      if r >= 0 { assert s[..r] == [s[0]] + s[1..][..r - 1]; }
    }
  }

  lemma {:induction false} FirstSlashIs(s: seq<byte>, i: int)
    requires 0 <= i < |s| && s[i] == SLASH && SLASH !in s[..i]
    ensures FirstSlash(s) == i
  {
    if i > 0 {
      assert s[0] == s[..i][0];
      assert s[1..][..i - 1] == s[..i][1..];
      FirstSlashIs(s[1..], i - 1);
    }
  }

  /** str_index_of for a slash. */
  method IndexOfSlash(str: array<byte>, ghost text: seq<byte>) returns (r: int)
    requires Holds(str, text)
    ensures r == FirstSlash(text)
  {
    HoldsString(str, text);
    if str[0] == SLASH {
      FirstSlashIs(text, 0);
      return 0;
    }
    var size := StrLen(str);
    for i := 0 to size
      invariant SLASH !in text[..i]
    {
      assert str[i] == text[i];
      if str[i] == SLASH {
        FirstSlashIs(text, i);
        return i;
      }
      assert text[..i + 1] == text[..i] + [text[i]];
    }
    assert text[..size] == text;
    FirstSlashFinds(text);
    return -1;
  }

  // ---- what the parse yields ----

  /** The name a round makes of the text: up to and with the first slash, unless there is none or it comes first. */
  function HeadName(rest: seq<byte>): seq<byte> {
    if FirstSlash(rest) <= 0 then rest else rest[..FirstSlash(rest) + 1]
  }

  /** What the round leaves. */
  function Remaining(rest: seq<byte>): (r: seq<byte>)
    ensures |r| <= |rest| && (FirstSlash(rest) > 0 ==> |r| < |rest|)
  {
    if FirstSlash(rest) <= 0 then [] else rest[FirstSlash(rest) + 1..]
  }

  /** Another round follows. */
  predicate GoesOn(rest: seq<byte>) { FirstSlash(rest) > 0 && FirstSlash(Remaining(rest)) >= 0 }

  /** The part names: every part but the last keeps its slash. */
  function Names(rest: seq<byte>): seq<seq<byte>>
    decreases |rest|, 0
  {
    var i := FirstSlash(rest);
    if i <= 0 then [rest] else [rest[..i + 1]] + NamesAfter(rest[i + 1..])
  }

  /** The parts made of what lies behind a slash: none if it is empty. */
  function NamesAfter(rest: seq<byte>): seq<seq<byte>>
    decreases |rest|, 1
  {
    if FirstSlash(rest) >= 0 then Names(rest) else if rest != [] then [rest] else []
  }

  /** The last node still points back at the one before it. */
  predicate LinksBack(rest: seq<byte>, first: bool)
    decreases |rest|
  {
    var i := FirstSlash(rest);
    if i <= 0 then !first
    else
      var rest' := rest[i + 1..];
      if FirstSlash(rest') >= 0 then LinksBack(rest', false) else rest' == [] && !first
  }

  predicate HasDoubleSlash(s: seq<byte>) { exists i :: 0 <= i < |s| - 1 && s[i] == SLASH && s[i + 1] == SLASH }

  predicate EndsInSlash(s: seq<byte>) { s != [] && s[|s| - 1] == SLASH }

  /** When the list is a proper one: what a caller can see in the text behind the drive. */
  predicate IsProper(rest: seq<byte>) {
    || FirstSlash(rest) <= 0
    || (!HasDoubleSlash(rest) && (EndsInSlash(rest) ==> FirstSlash(rest) == |rest| - 1))
  }

  /** The same in terms of the bytes. */
  lemma IsProperIff(rest: seq<byte>)
    ensures IsProper(rest) <==>
            || (forall i | 0 <= i < |rest| :: rest[i] != 47)
            || (rest != [] && rest[0] == 47)
            || ((forall i | 0 < i < |rest| :: !(rest[i - 1] == 47 && rest[i] == 47))
                && (rest[|rest| - 1] == 47 ==> forall i | 0 <= i < |rest| - 1 :: rest[i] != 47))
  {
    FirstSlashFinds(rest);
    var f := FirstSlash(rest);
    if f < 0 {
      assert forall i | 0 <= i < |rest| :: rest[i] in rest;
    } else {
      assert forall i | 0 <= i < f :: rest[i] == rest[..f][i] && rest[..f][i] in rest[..f];
      DoubleSlashIff(rest);
    }
  }

  lemma DoubleSlashIff(s: seq<byte>)
    ensures HasDoubleSlash(s) <==> !(forall i | 0 < i < |s| :: !(s[i - 1] == 47 && s[i] == 47))
  {
    if HasDoubleSlash(s) {
      var i :| 0 <= i < |s| - 1 && s[i] == SLASH && s[i + 1] == SLASH;
      assert s[i + 1 - 1] == 47 && s[i + 1] == 47;
    }
  }

  lemma SlashFacts(rest: seq<byte>, i: nat)
    requires i == FirstSlash(rest) && i > 0
    ensures var rest' := rest[i + 1..];
            && (HasDoubleSlash(rest) <==> (rest' != [] && rest'[0] == SLASH) || HasDoubleSlash(rest'))
            && (rest' != [] ==> (EndsInSlash(rest) <==> EndsInSlash(rest')))
            && (rest' == [] ==> EndsInSlash(rest) && FirstSlash(rest) == |rest| - 1)
  {
    var rest' := rest[i + 1..];
    FirstSlashFinds(rest);
    forall k | 0 <= k < i ensures rest[k] != SLASH {
      assert rest[k] == rest[..i][k];
    }
    if rest' != [] && rest'[0] == SLASH {
      assert rest[i] == SLASH && rest[i + 1] == SLASH;
    }
    if HasDoubleSlash(rest') {
      var k :| 0 <= k < |rest'| - 1 && rest'[k] == SLASH && rest'[k + 1] == SLASH;
      assert rest[i + 1 + k] == SLASH && rest[i + 1 + k + 1] == SLASH;
    }
    if HasDoubleSlash(rest) {
      var k :| 0 <= k < |rest| - 1 && rest[k] == SLASH && rest[k + 1] == SLASH;
      if k > i {
        assert rest'[k - i - 1] == SLASH && rest'[k - i - 1 + 1] == SLASH;
      }
    }
  }

  /** After the first round, the list stays open at its end exactly if no slash comes first, twice, or last. */
  lemma {:induction false} LaterLinksBackIff(rest: seq<byte>)
    requires FirstSlash(rest) >= 0
    ensures LinksBack(rest, false) <==> rest[0] == SLASH || HasDoubleSlash(rest) || EndsInSlash(rest)
    decreases |rest|
  {
    var i := FirstSlash(rest);
    FirstSlashFinds(rest);
    if i > 0 {
      var rest' := rest[i + 1..];
      assert rest[0] == rest[..i][0];
      SlashFacts(rest, i);
      if FirstSlash(rest') >= 0 {
        LaterLinksBackIff(rest');
      } else {
        FirstSlashFinds(rest');
        assert forall k | 0 <= k < |rest'| :: rest'[k] in rest';
      }
    }
  }

  /** The parsed list ends in null exactly for proper paths; otherwise its last two nodes form a cycle. */
  lemma LinksBackIff(rest: seq<byte>)
    ensures LinksBack(rest, true) <==> !IsProper(rest)
  {
    var i := FirstSlash(rest);
    FirstSlashFinds(rest);
    if i > 0 {
      var rest' := rest[i + 1..];
      SlashFacts(rest, i);
      if FirstSlash(rest') >= 0 {
        LaterLinksBackIff(rest');
      } else {
        FirstSlashFinds(rest');
        assert forall k | 0 <= k < |rest'| :: rest'[k] in rest';
      }
    }
  }

  function Concat(names: seq<seq<byte>>): seq<byte> {
    if names == [] then [] else names[0] + Concat(names[1..])
  }

  /** Nothing of the text is lost, whatever it is. */
  lemma {:induction false} NamesMakeUpText(rest: seq<byte>)
    ensures Concat(Names(rest)) == rest
    decreases |rest|, 0
  {
    var i := FirstSlash(rest);
    if i > 0 {
      NamesAfterMakeUpText(rest[i + 1..]);
      assert Names(rest)[1..] == NamesAfter(rest[i + 1..]);
      assert rest == rest[..i + 1] + rest[i + 1..];
    } else {
      ConcatOne(rest);
    }
  }

  lemma {:induction false} NamesAfterMakeUpText(rest: seq<byte>)
    ensures Concat(NamesAfter(rest)) == rest
    decreases |rest|, 1
  {
    if FirstSlash(rest) >= 0 {
      NamesMakeUpText(rest);
    } else if rest != [] {
      ConcatOne(rest);
    }
  }

  lemma ConcatOne(name: seq<byte>)
    ensures Concat([name]) == name
  {
    assert Concat([name][1..]) == [];
  }

  /** One slash, at the end and behind something. */
  predicate EndsAtSlash(name: seq<byte>) {
    |name| >= 2 && name[|name| - 1] == 47 && forall i | 0 <= i < |name| - 1 :: name[i] != 47
  }

  /** How the text is cut: behind each slash, until a slash comes first or the text ends. */
  ghost predicate AreNames(names: seq<seq<byte>>) {
    && names != [] && (forall i | 0 <= i < |names| - 1 :: EndsAtSlash(names[i]))
    && var last := names[|names| - 1];
       last == [] || last[0] == 47 || (forall i | 0 <= i < |last| :: last[i] != 47) || EndsAtSlash(last)
  }

  lemma {:induction false} NamesAreCut(rest: seq<byte>)
    ensures AreNames(Names(rest))
    decreases |rest|, 0
  {
    var i := FirstSlash(rest);
    FirstSlashFinds(rest);
    if i > 0 {
      var head := rest[..i + 1];
      assert forall k | 0 <= k < i :: head[k] == rest[..i][k] && rest[..i][k] in rest[..i];
      NamesAfterAreCut(rest[i + 1..]);
      CutMore(head, NamesAfter(rest[i + 1..]));
    } else {
      assert forall k | 0 <= k < |rest| :: rest[k] in rest;
    }
  }

  lemma {:induction false} NamesAfterAreCut(rest: seq<byte>)
    ensures NamesAfter(rest) != [] ==> AreNames(NamesAfter(rest))
    decreases |rest|, 1
  {
    FirstSlashFinds(rest);
    if FirstSlash(rest) >= 0 {
      NamesAreCut(rest);
    } else {
      assert forall k | 0 <= k < |rest| :: rest[k] in rest;
    }
  }

  lemma CutMore(head: seq<byte>, names: seq<seq<byte>>)
    requires EndsAtSlash(head) && (names != [] ==> AreNames(names))
    ensures AreNames([head] + names)
  {
    var all := [head] + names;
    forall i | 0 <= i < |all| - 1 ensures EndsAtSlash(all[i]) {
      if i > 0 { assert all[i] == names[i - 1]; }
    }
    if names != [] { assert all[|all| - 1] == names[|names| - 1]; }
  }

  /** The components joined by slashes. */
  function Join(cs: seq<seq<byte>>): seq<byte>
    requires cs != []
  {
    if |cs| == 1 then cs[0] else cs[0] + [SLASH] + Join(cs[1..])
  }

  ghost predicate AreComponents(cs: seq<seq<byte>>) {
    cs != [] && forall i | 0 <= i < |cs| :: cs[i] != [] && SLASH !in cs[i]
  }

  lemma FirstSlashOfJoin(cs: seq<seq<byte>>)
    requires AreComponents(cs)
    ensures FirstSlash(Join(cs)) == if |cs| == 1 then -1 else |cs[0]|
  {
    if |cs| > 1 {
      var s := Join(cs);
      assert s[..|cs[0]|] == cs[0] && s[|cs[0]|] == SLASH;
      FirstSlashIs(s, |cs[0]|);
    } else {
      FirstSlashFinds(cs[0]);
    }
  }

  /** A path of k components parses into k parts, each a component, with its slash but for the last. */
  lemma {:induction false} NamesOfComponents(cs: seq<seq<byte>>)
    requires AreComponents(cs)
    ensures |Names(Join(cs))| == |cs|
    ensures forall i | 0 <= i < |cs| :: Names(Join(cs))[i] == if i == |cs| - 1 then cs[i] else cs[i] + [SLASH]
  {
    FirstSlashOfJoin(cs);
    if |cs| > 1 {
      NamesOfComponents(cs[1..]);
      NamesOfJoin(cs);
    }
  }

  lemma NamesOfJoin(cs: seq<seq<byte>>)
    requires AreComponents(cs) && |cs| > 1
    ensures Names(Join(cs)) == [cs[0] + [SLASH]] + Names(Join(cs[1..]))
  {
    var s, n := Join(cs), |cs[0]|;
    FirstSlashOfJoin(cs);
    FirstSlashOfJoin(cs[1..]);
    JoinIsProper(cs[1..]);
    assert s[..n + 1] == cs[0] + [SLASH] && s[n + 1..] == Join(cs[1..]);
  }

  /** Such a path is a proper one. */
  lemma ComponentsAreProper(cs: seq<seq<byte>>)
    requires AreComponents(cs)
    ensures IsProper(Join(cs))
  {
    JoinIsProper(cs);
  }

  /** "d:/c1/.../ck" is valid, is parsed behind its slash, and yields one part for each component. */
  lemma PathOfComponents(drive: byte, cs: seq<seq<byte>>)
    requires IsDigit(drive) && AreComponents(cs) && 3 + |Join(cs)| <= MAX_PATH
    ensures var text := [drive, COLON, SLASH] + Join(cs);
            && IsValid(text) && text[3..] == Join(cs) && IsProper(text[3..])
            && |Names(text[3..])| == |cs| && Concat(Names(text[3..])) == Join(cs)
  {
    var text := [drive, COLON, SLASH] + Join(cs);
    assert text[3..] == Join(cs);
    NamesOfComponents(cs);
    ComponentsAreProper(cs);
    NamesMakeUpText(Join(cs));
  }

  lemma {:induction false} JoinIsProper(cs: seq<seq<byte>>)
    requires AreComponents(cs)
    ensures Join(cs) != [] && Join(cs)[0] != SLASH && !HasDoubleSlash(Join(cs)) && !EndsInSlash(Join(cs))
  {
    FirstSlashOfJoin(cs);
    if |cs| > 1 {
      JoinIsProper(cs[1..]);
      var s := Join(cs);
      assert s[|cs[0]| + 1..] == Join(cs[1..]);
      SlashFacts(s, |cs[0]|);
      assert s[0] == cs[0][0];
    } else {
      assert forall k | 0 <= k < |cs[0]| :: cs[0][k] in cs[0];
    }
  }

  // ---- the parse ----

  class PathPart {
    var name: array<byte>
    var next: PathPart?

    constructor (name: array<byte>, next: PathPart?)
      ensures this.name == name && this.next == next
    {
      this.name, this.next := name, next;
    }
  }

  class PathRoot {
    var drive: nat
    var part: PathPart

    constructor (drive: nat, part: PathPart)
      ensures this.drive == drive && this.part == part
    {
      this.drive, this.part := drive, part;
    }
  }

  /** A path of at most 256 characters that starts with a digit, a colon and a slash. */
  predicate IsValid(path: seq<byte>) {
    |path| <= MAX_PATH && |path| >= 3 && IsDigit(path[0]) && path[1] == COLON && path[2] == SLASH
  }

  /** path_parser_is_path_valid */
  method IsPathValid(path: array<byte>, ghost text: seq<byte>) returns (valid: bool)
    requires Holds(path, text)
    ensures valid <==> 3 <= |text| <= 256 && 48 <= text[0] <= 57 && text[1] == 58 && text[2] == 47
    ensures valid == IsValid(text)
  {
    HoldsString(path, text);
    assert forall i | 0 <= i < |text| :: path[i] == text[i] && text[i] in text;
    var size := StrLen(path);
    if size > MAX_PATH {
      return false;
    }
    if !IsDigit(path[0]) {
      return false;
    }
    // the slice of characters 1 and 2 compared with ":/"
    return path[1] == COLON && path[2] == SLASH;
  }

  /** Nodes linked forwards; the last one links back to the one before it, or to null if it is alone. */
  ghost predicate Linked(parts: seq<PathPart>)
    reads parts
  {
    && (forall i | 0 <= i < |parts| - 1 :: parts[i].next == parts[i + 1])
    && (parts != [] ==> parts[|parts| - 1].next == if |parts| > 1 then parts[|parts| - 2] else null)
  }

  ghost predicate Distinct(parts: seq<PathPart>) {
    forall i, j | 0 <= i < j < |parts| :: parts[i] != parts[j]
  }

  /** The nodes' buffers hold the names; `spare` is none of them. */
  ghost predicate Named(parts: seq<PathPart>, names: seq<seq<byte>>, spare: array<byte>)
    reads parts, set i | 0 <= i < |parts| :: parts[i].name
  {
    |parts| == |names| && forall i | 0 <= i < |parts| :: parts[i].name != spare && Holds(parts[i].name, names[i])
  }

  /** What is known of the rounds made so far, with `cur` still to be parsed: the list will hold the
      names `all`, and `back` says whether its end will link back. */
  ghost predicate Parsed(all: seq<seq<byte>>, back: bool, done: seq<seq<byte>>, cur: seq<byte>) {
    all == done + Names(cur) && back == LinksBack(cur, done == [])
  }

  /** What is known when the loop is left: `cur` is what remains for the last part. */
  ghost predicate Finished(all: seq<seq<byte>>, back: bool, done: seq<seq<byte>>, cur: seq<byte>) {
    done != [] && all == (if cur != [] then done + [cur] else done) && back == (cur == [] && |done| > 1)
  }

  lemma StartsParsed(text: seq<byte>)
    ensures Parsed(Names(text), !IsProper(text), [], text)
  {
    LinksBackIff(text);
    assert [] + Names(text) == Names(text);
  }

  lemma OneRound(all: seq<seq<byte>>, back: bool, done: seq<seq<byte>>, cur: seq<byte>)
    requires Parsed(all, back, done, cur)
    ensures if GoesOn(cur) then Parsed(all, back, done + [HeadName(cur)], Remaining(cur))
            else Finished(all, back, done + [HeadName(cur)], Remaining(cur))
  {
    if FirstSlash(cur) > 0 {
      MoveOne(done, HeadName(cur), NamesAfter(Remaining(cur)));
    }
  }

  lemma MoveOne(done: seq<seq<byte>>, x: seq<byte>, tail: seq<seq<byte>>)
    ensures done + ([x] + tail) == done + [x] + tail
  {
  }

  /** The slice from `from` to the terminator holds the rest of the text. */
  method SliceRest(output: array<byte>, str: array<byte>, ghost text: seq<byte>, from: nat, length: nat)
    requires Holds(str, text) && length == |text| && from <= length && output != str && length - from + 2 <= output.Length
    modifies output
    ensures Holds(output, text[from..])
  {
    StrSlice(output, str, from, length);
    ghost var n := length - from;
    assert output[..n] == output[..n + 1][..n] == str[from..length + 1][..n] == str[..length][from..];
    assert output[n] == output[..n + 1][n] == str[from..length + 1][n] == NUL;
    forall b | b in text[from..] ensures b in text {
    }
  }

  /** The name of a part that is followed by a slash. */
  method SliceName(str: array<byte>, ghost text: seq<byte>, separator: nat) returns (name: array<byte>)
    requires Holds(str, text) && separator < |text| && separator + 2 <= BLOCK
    ensures fresh(name) && Holds(name, text[..separator + 1])
  {
    // the buffer asked for is a byte short of the terminator, which its block has room for
    name := Malloc(separator + 1);
    StrSlice(name, str, 0, separator);
    assert name[..separator + 1] == str[0..separator + 1] == str[..|text|][..separator + 1];
    forall b | b in text[..separator + 1] ensures b in text {
    }
  }

  /** The parts and their list, as the loop leaves them. */
  ghost predicate IsList(parts: seq<PathPart>, first: PathPart?, last: PathPart?, names: seq<seq<byte>>, spare: array<byte>)
    reads parts, set i | 0 <= i < |parts| :: parts[i].name
  {
    && Linked(parts) && Distinct(parts) && Named(parts, names, spare)
    && (if parts == [] then first == null == last else first == parts[0] && last == parts[|parts| - 1])
  }

  /** A new node at the end of the list; its own link goes back until a further node replaces it. */
  method AddPart(name: array<byte>, ghost text: seq<byte>, previous: PathPart?, first: PathPart?,
                 ghost parts: seq<PathPart>, ghost names: seq<seq<byte>>, ghost spare: array<byte>)
      returns (part: PathPart, first': PathPart)
    requires IsList(parts, first, previous, names, spare) && Holds(name, text) && name != spare
    modifies if previous == null then {} else {previous}
    ensures fresh(part) && part.name == name
    ensures forall i | 0 <= i < |parts| :: parts[i].name == old(parts[i].name)
    ensures IsList(parts + [part], first', part, names + [text], spare)
  {
    part := new PathPart(name, previous);
    if previous != null {
      previous.next := part;
    }
    first' := if first == null then part else first;
  }

  /** The text behind the separator, in a new buffer; the old one is freed. */
  method NextRest(rest: array<byte>, ghost text: seq<byte>, separator: nat) returns (newPath: array<byte>)
    requires Holds(rest, text) && BLOCK <= rest.Length && separator < |text|
    modifies rest
    ensures fresh(newPath) && BLOCK <= newPath.Length && Holds(newPath, text[separator + 1..])
  {
    HoldsString(rest, text);
    var restLength := StrLen(rest);
    newPath := Malloc(4 * (restLength - separator));
    SliceRest(newPath, rest, text, separator + 1, restLength);
    Free(rest);
  }

  /** The round that finds no further slash, or one in front: the whole rest is the name, and the rest is freed. */
  method LastPart(rest: array<byte>, ghost cur: seq<byte>, previous: PathPart?, first: PathPart?,
                  ghost parts: seq<PathPart>, ghost names: seq<seq<byte>>)
      returns (part: PathPart, first': PathPart)
    requires Holds(rest, cur) && BLOCK <= rest.Length && IsList(parts, first, previous, names, rest)
    modifies rest, if previous == null then {} else {previous}
    ensures fresh(part) && fresh(part.name) && Holds(rest, [])
    ensures forall i | 0 <= i < |parts| :: parts[i].name == old(parts[i].name)
    ensures IsList(parts + [part], first', part, names + [cur], rest)
  {
    var name := StrCopy(rest, cur);
    part, first' := AddPart(name, cur, previous, first, parts, names, rest);
    Free(rest);
  }

  /** A round with a slash behind the name: the name keeps the slash, the rest moves to a new buffer. */
  method InnerPart(rest: array<byte>, ghost cur: seq<byte>, separator: nat, previous: PathPart?, first: PathPart?,
                   ghost parts: seq<PathPart>, ghost names: seq<seq<byte>>)
      returns (part: PathPart, first': PathPart, rest': array<byte>)
    requires Holds(rest, cur) && BLOCK <= rest.Length && separator < |cur| && separator + 2 <= BLOCK
    requires IsList(parts, first, previous, names, rest)
    modifies rest, if previous == null then {} else {previous}
    ensures fresh(part) && fresh(part.name) && fresh(rest') && BLOCK <= rest'.Length && Holds(rest', cur[separator + 1..])
    ensures forall i | 0 <= i < |parts| :: parts[i].name == old(parts[i].name)
    ensures IsList(parts + [part], first', part, names + [cur[..separator + 1]], rest')
  {
    var name := SliceName(rest, cur, separator);
    part, first' := AddPart(name, cur[..separator + 1], previous, first, parts, names, rest);
    ghost var all, texts := parts + [part], names + [cur[..separator + 1]];
    assert Named(all, texts, rest);
    rest' := NextRest(rest, cur, separator);
    assert forall i | 0 <= i < |all| :: all[i].name != rest' && Holds(all[i].name, texts[i]);
  }

  /** Different nodes holding the names in order, each linked to the next; the last one's link is
      null, or goes back to the node before it. */
  ghost predicate ListIs(parts: seq<PathPart>, names: seq<seq<byte>>, back: bool)
    reads parts, set i | 0 <= i < |parts| :: parts[i].name
  {
    && |parts| == |names| && Distinct(parts)
    && (forall i | 0 <= i < |parts| :: Holds(parts[i].name, names[i]))
    && (forall i | 0 <= i < |parts| - 1 :: parts[i].next == parts[i + 1])
    && (parts != [] && !back ==> parts[|parts| - 1].next == null)
    && (back ==> |parts| >= 2 && parts[|parts| - 1].next == parts[|parts| - 2])
  }

  /** The loop of path_parser_parse_path; `rest0` holds the text behind the drive, `rest` what is left of it. */
  method ParseLoop(rest0: array<byte>, ghost text: seq<byte>, ghost all: seq<seq<byte>>, ghost back: bool)
      returns (first: PathPart, last: PathPart, rest: array<byte>,
               ghost parts: seq<PathPart>, ghost done: seq<seq<byte>>, ghost cur: seq<byte>)
    requires Holds(rest0, text) && BLOCK <= rest0.Length && |text| <= MAX_PATH && Parsed(all, back, [], text)
    modifies rest0
    ensures Finished(all, back, done, cur) && Holds(rest, cur) && parts != [] && IsList(parts, first, last, done, rest) && fresh(last)
  {
    rest, cur, done := rest0, text, [];
    var separator := IndexOfSlash(rest, cur);
    var part: PathPart?, start: PathPart? := null, null;
    var more := true;
    parts := [];
    while more
      invariant (rest == rest0 || fresh(rest)) && rest.Length >= BLOCK && Holds(rest, cur) && |cur| <= MAX_PATH
      invariant forall i | 0 <= i < |parts| :: fresh(parts[i]) && fresh(parts[i].name)
      invariant IsList(parts, start, part, done, rest)
      invariant more ==> separator == FirstSlash(cur) && Parsed(all, back, done, cur)
      invariant !more ==> Finished(all, back, done, cur)
      decreases more, |cur|
    {
      part, start, rest, separator, more, parts, done, cur := NextRound(rest, separator, part, start, all, back, cur, parts, done);
    }
    first, last := start, part;
  }

  /** A round together with what is known of the names: it leads from Parsed to Parsed, and the last one to Finished. */
  method NextRound(rest: array<byte>, separator: int, previous: PathPart?, first: PathPart?,
                   ghost all: seq<seq<byte>>, ghost back: bool,
                   ghost cur: seq<byte>, ghost parts: seq<PathPart>, ghost done: seq<seq<byte>>)
      returns (part: PathPart, first': PathPart, rest': array<byte>, separator': int, more: bool,
               ghost parts': seq<PathPart>, ghost done': seq<seq<byte>>, ghost cur': seq<byte>)
    requires Holds(rest, cur) && BLOCK <= rest.Length && |cur| <= MAX_PATH && IsList(parts, first, previous, done, rest)
    requires separator == FirstSlash(cur) && Parsed(all, back, done, cur)
    modifies rest, if previous == null then {} else {previous}
    ensures fresh(part) && fresh(part.name) && (rest' == rest || fresh(rest')) && BLOCK <= rest'.Length
    ensures parts' == parts + [part] && forall i | 0 <= i < |parts| :: parts[i].name == old(parts[i].name)
    ensures IsList(parts', first', part, done', rest') && Holds(rest', cur') && |cur'| <= |cur|
    ensures if more then separator' == FirstSlash(cur') && |cur'| < |cur| && Parsed(all, back, done', cur')
            else Finished(all, back, done', cur')
  {
    part, first', rest', separator', more := Round(rest, separator, previous, first, cur, parts, done);
    OneRound(all, back, done, cur);
    parts', done', cur' := parts + [part], done + [HeadName(cur)], Remaining(cur);
  }

  /** One round of the loop. */
  method Round(rest: array<byte>, separator: int, previous: PathPart?, first: PathPart?,
               ghost cur: seq<byte>, ghost parts: seq<PathPart>, ghost done: seq<seq<byte>>)
      returns (part: PathPart, first': PathPart, rest': array<byte>, separator': int, more: bool)
    requires Holds(rest, cur) && BLOCK <= rest.Length && |cur| <= MAX_PATH && IsList(parts, first, previous, done, rest)
    requires separator == FirstSlash(cur)
    modifies rest, if previous == null then {} else {previous}
    ensures fresh(part) && fresh(part.name) && (rest' == rest || fresh(rest')) && BLOCK <= rest'.Length
    ensures forall i | 0 <= i < |parts| :: parts[i].name == old(parts[i].name)
    ensures IsList(parts + [part], first', part, done + [HeadName(cur)], rest') && Holds(rest', Remaining(cur))
    ensures more == GoesOn(cur) && (more ==> separator' == FirstSlash(Remaining(cur)))
  {
    if separator <= 0 {
      part, first' := LastPart(rest, cur, previous, first, parts, done);
      rest', separator', more := rest, separator, false;
    } else {
      part, first', rest' := InnerPart(rest, cur, separator, previous, first, parts, done);
      separator' := IndexOfSlash(rest', Remaining(cur));
      more := separator' >= 0;
    }
  }

  /** What is left behind the last slash becomes a last part, which ends the list; nothing left adds none. */
  method FinalPart(rest: array<byte>, ghost cur: seq<byte>, last: PathPart, ghost parts: seq<PathPart>,
                   ghost names: seq<seq<byte>>, ghost first: PathPart?) returns (part: PathPart, ghost parts': seq<PathPart>)
    requires Holds(rest, cur) && parts != [] && IsList(parts, first, last, names, rest)
    modifies last
    ensures parts' != [] && parts'[0] == parts[0]
    ensures ListIs(parts', if cur != [] then names + [cur] else names, cur == [] && |names| > 1)
  {
    HoldsString(rest, cur);
    var remaining := StrLen(rest);
    part, parts' := last, parts;
    if remaining > 0 {
      part := new PathPart(rest, null);
      last.next := part;
      parts' := parts + [part];
    }
  }

  /** The list for the text behind the drive. */
  method ParseParts(buffer: array<byte>, ghost text: seq<byte>, ghost all: seq<seq<byte>>, ghost back: bool)
      returns (first: PathPart, ghost parts: seq<PathPart>)
    requires Holds(buffer, text) && BLOCK <= buffer.Length && |text| <= MAX_PATH && Parsed(all, back, [], text)
    modifies buffer
    ensures parts != [] && first == parts[0] && ListIs(parts, all, back)
  {
    var last: PathPart, rest: array<byte>;
    ghost var done, cur;
    first, last, rest, parts, done, cur := ParseLoop(buffer, text, all, back);
    last, parts := FinalPart(rest, cur, last, parts, done, first);
  }

  /** path_parser_parse_path behind the validity check; `rest` is the text behind the drive. */
  method ParseValid(path: array<byte>, ghost text: seq<byte>, ghost rest: seq<byte>, ghost all: seq<seq<byte>>, ghost back: bool)
      returns (root: PathRoot, ghost parts: seq<PathPart>)
    requires Holds(path, text) && 3 <= |text| <= MAX_PATH && IsDigit(text[0]) && rest == text[3..] && Parsed(all, back, [], rest)
    ensures root.drive == text[0] - ZERO && parts != [] && root.part == parts[0] && ListIs(parts, all, back)
  {
    HoldsString(path, text);
    var drive := path[0] - ZERO;
    var length := StrLen(path);
    var buffer := Malloc(4 * (length - 2));
    SliceRest(buffer, path, text, 3, length);
    var first: PathPart;
    first, parts := ParseParts(buffer, rest, all, back);
    root := new PathRoot(drive, first);
  }

  /** path_parser_parse_path: null for an invalid path; otherwise the drive and the list of parts. */
  method ParsePath(path: array<byte>, ghost text: seq<byte>) returns (root: PathRoot?, ghost parts: seq<PathPart>)
    requires Holds(path, text)
    ensures root != null <==> 3 <= |text| <= 256 && 48 <= text[0] <= 57 && text[1] == 58 && text[2] == 47
    ensures root != null ==> root.drive == text[0] - 48 && parts != [] && root.part == parts[0]
                             && ListIs(parts, Names(text[3..]), !IsProper(text[3..]))
  {
    parts := [];
    var valid := IsPathValid(path, text);
    if !valid {
      return null, [];
    }
    StartsParsed(text[3..]);
    root, parts := ParseValid(path, text, text[3..], Names(text[3..]), !IsProper(text[3..]));
  }
}
