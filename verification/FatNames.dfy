/** 8.3 names: how the kernel spells a directory item's name, and the lookup by name. */
module FatNames {
  import opened Machine
  import opened Strings
  import opened FatVolume
  import opened FatFiles

  const PAD: byte := 0x20
  const DOT: byte := 46
  const BASE := 8
  const EXT := 3
  const MAX_NAME := 256

  predicate IsPad(b: byte) { b == 0x00 || b == PAD }

  /** The bytes from p up to the first zero or space, wherever in memory that is. */
  function Run(mem: seq<byte>, p: nat): seq<byte>
    decreases |mem| - p
  {
    if p < |mem| && !IsPad(mem[p]) then [mem[p]] + Run(mem, p + 1) else []
  }

  /** The byte at p; the memory behind the cached directory reads as zero. */
  function At(mem: seq<byte>, p: nat): byte { if p < |mem| then mem[p] else 0 }

  /** fat16_get_full_relative_filename for the item at p. */
  function FullName(mem: seq<byte>, p: nat): seq<byte> {
    Run(mem, p) + (if IsPad(At(mem, p + BASE)) then [] else [DOT] + Run(mem, p + BASE))
  }

  /** The used part of an n-byte field at p. */
  function Field(mem: seq<byte>, p: nat, n: nat): seq<byte>
    decreases n
  {
    if n > 0 && p < |mem| && !IsPad(mem[p]) then [mem[p]] + Field(mem, p + 1, n - 1) else []
  }

  /** The 8.3 name of the item at p (section "FAT Directory Structure" of the FAT specification). */
  function ShortName(mem: seq<byte>, p: nat): seq<byte> {
    Field(mem, p, BASE) + (if IsPad(At(mem, p + BASE)) then [] else [DOT] + Field(mem, p + BASE, EXT))
  }

  /** What a directory can be checked for: a base of less than 8 characters and an extension that
      is ended by a pad, or by an attribute byte that looks like one; or no extension at all. */
  predicate SpellsRight(mem: seq<byte>, p: nat) {
    || IsPad(At(mem, p + BASE))
    || (|Field(mem, p, BASE)| < BASE && (|Field(mem, p + BASE, EXT)| < EXT || IsPad(At(mem, p + BASE + EXT))))
  }

  /** A field is its run, cut off at the field's end. */
  lemma {:induction false} FieldIsPrefix(mem: seq<byte>, p: nat, n: nat)
    ensures |Field(mem, p, n)| == Min(n, |Run(mem, p)|)
    ensures Field(mem, p, n) == Run(mem, p)[..|Field(mem, p, n)|]
    decreases n
  {
    if n > 0 && p < |mem| && !IsPad(mem[p]) {
      FieldIsPrefix(mem, p + 1, n - 1);
    }
  }

  lemma {:induction false} RunSuffix(mem: seq<byte>, p: nat, k: nat)
    requires k <= |Run(mem, p)|
    ensures Run(mem, p + k) == Run(mem, p)[k..]
    decreases k
  {
    if k > 0 { RunSuffix(mem, p + 1, k - 1); }
  }

  /** A run that stays inside n bytes is its field; one that fills them goes on behind them. */
  lemma RunIsField(mem: seq<byte>, p: nat, n: nat)
    ensures |Field(mem, p, n)| <= n
    ensures |Field(mem, p, n)| < n ==> Run(mem, p) == Field(mem, p, n)
    ensures |Field(mem, p, n)| == n ==> Run(mem, p) == Field(mem, p, n) + Run(mem, p + n)
  {
    FieldIsPrefix(mem, p, n);
    if |Field(mem, p, n)| == n { RunSuffix(mem, p, n); }
  }

  /** The kernel's spelling is the 8.3 name exactly under that condition. */
  lemma FullNameIsShortNameIff(mem: seq<byte>, p: nat)
    ensures FullName(mem, p) == ShortName(mem, p) <==> SpellsRight(mem, p)
  {
    RunIsField(mem, p, BASE);
    RunIsField(mem, p + BASE, EXT);
    var base, ext := Field(mem, p, BASE), Field(mem, p + BASE, EXT);
    if IsPad(At(mem, p + BASE)) {
      assert Run(mem, p + BASE) == [];
    } else if |base| == BASE {
      assert |FullName(mem, p)| > |ShortName(mem, p)|;
    } else if |ext| == EXT && !IsPad(At(mem, p + BASE + EXT)) {
      assert |FullName(mem, p)| > |ShortName(mem, p)|;
    }
  }

  /** The n bytes at p hold s, none of it a zero or a space, and behind it there is one. */
  ghost predicate Spelled(mem: seq<byte>, p: nat, s: seq<byte>) {
    && p + |s| < |mem| && mem[p..p + |s|] == s
    && (forall i | 0 <= i < |s| :: s[i] != 0 && s[i] != 32)
    && (mem[p + |s|] == 0 || mem[p + |s|] == 32)
  }

  lemma {:induction false} RunIs(mem: seq<byte>, p: nat, s: seq<byte>)
    requires Spelled(mem, p, s)
    ensures Run(mem, p) == s
    decreases |s|
  {
    if s != [] {
      assert mem[p] == mem[p..p + |s|][0] == s[0];
      assert mem[p + 1..p + 1 + |s[1..]|] == mem[p..p + |s|][1..];
      RunIs(mem, p + 1, s[1..]);
    }
  }

  /** A base and an extension of the usual form are spelled with a dot between them; a base alone without. */
  lemma NameIs(mem: seq<byte>, p: nat, base: seq<byte>, ext: seq<byte>)
    requires |base| < 8 && |ext| <= 3 && Spelled(mem, p, base) && Spelled(mem, p + 8, ext)
    ensures FullName(mem, p) == if ext == [] then base else base + [46] + ext
  {
    RunIs(mem, p, base);
    RunIs(mem, p + 8, ext);
    if ext != [] { assert mem[p + 8] == mem[p + 8..p + 8 + |ext|][0] == ext[0]; }
  }

  /** fat16_to_proper_string: copies a run and returns where the next character goes. */
  method ToProperString(out: array<byte>, at: nat, mem: seq<byte>, p: nat) returns (end: nat)
    requires at + |Run(mem, p)| < out.Length
    modifies out
    ensures end == at + |Run(mem, p)| && out[at..end] == Run(mem, p)
    ensures forall k | 0 <= k < at :: out[k] == old(out[k])
    ensures forall k | end <= k < out.Length :: out[k] == if k == end && At(mem, p + |Run(mem, p)|) == PAD then 0 else old(out[k])
  {
    end := at;
    var q := p;
    while q < |mem| && mem[q] != 0x00 && mem[q] != PAD
      invariant p <= q && end == at + (q - p) && end + |Run(mem, q)| == at + |Run(mem, p)|
      invariant out[at..end] + Run(mem, q) == Run(mem, p)
      invariant forall k | 0 <= k < out.Length && !(at <= k < end) :: out[k] == old(out[k])
      decreases |mem| - q
    {
      ghost var before := out[at..end];
      out[end] := mem[q];
      assert out[at..end + 1] == before + [mem[q]];
      end := end + 1;
      q := q + 1;
    }
    assert Run(mem, q) == [];
    if At(mem, q) == PAD {
      out[end] := 0x00;
    }
  }

  lemma {:induction false} RunHasNoPads(mem: seq<byte>, p: nat)
    ensures forall i | 0 <= i < |Run(mem, p)| :: !IsPad(Run(mem, p)[i])
    decreases |mem| - p
  {
    if p < |mem| && !IsPad(mem[p]) { RunHasNoPads(mem, p + 1); }
  }

  /** fat16_get_full_relative_filename, for names that fit the buffer. */
  method FullRelativeName(mem: seq<byte>, p: nat, out: array<byte>)
    requires |FullName(mem, p)| < out.Length <= 0x1_0000
    modifies out
    ensures IsString(out[..]) && CStr(out[..]) == FullName(mem, p)
  {
    for i := 0 to out.Length
      invariant forall k | 0 <= k < i :: out[k] == 0
    {
      out[i] := 0;
    }
    var end := Spell(mem, p, out);
    FullNameHasNoPads(mem, p);
    CLenIs(out[..], end);
    assert out[..][..end] == out[..end];
  }

  lemma FullNameHasNoPads(mem: seq<byte>, p: nat)
    ensures forall i | 0 <= i < |FullName(mem, p)| :: !IsPad(FullName(mem, p)[i])
  {
    RunHasNoPads(mem, p);
    RunHasNoPads(mem, p + BASE);
  }

  /** The name written into a zeroed buffer. */
  method Spell(mem: seq<byte>, p: nat, out: array<byte>) returns (end: nat)
    requires |FullName(mem, p)| < out.Length && forall k | 0 <= k < out.Length :: out[k] == 0
    modifies out
    ensures end == |FullName(mem, p)| && out[..end] == FullName(mem, p) && out[end] == 0
  {
    end := ToProperString(out, 0, mem, p);
    if At(mem, p + BASE) != 0x00 && At(mem, p + BASE) != PAD {
      end := AddExtension(mem, p + BASE, out, end);
    }
  }

  method AddExtension(mem: seq<byte>, p: nat, out: array<byte>, at: nat) returns (end: nat)
    requires at + 1 + |Run(mem, p)| < out.Length && forall k | at <= k < out.Length :: out[k] == 0
    modifies out
    ensures end == at + 1 + |Run(mem, p)| && out[..end] == old(out[..at]) + ([DOT] + Run(mem, p)) && out[end] == 0
  {
    out[at] := DOT;
    ghost var name := out[..at + 1];
    end := ToProperString(out, at + 1, mem, p);
    assert out[..end] == out[..at + 1] + out[at + 1..end];
    assert out[..at + 1] == name == old(out[..at]) + [DOT];
  }

  /** Item i of the directory answers to the name. */
  ghost predicate Answers(mem: seq<byte>, i: nat, name: seq<byte>) {
    SameUpToCase(FullName(mem, ITEM * i), name)
  }

  /** The comparison of an item's name with the one looked for. */
  method Compare(filename: array<byte>, name: array<byte>, ghost mem: seq<byte>, ghost i: nat) returns (order: int)
    requires IsString(filename[..]) && IsString(name[..]) && CStr(filename[..]) == FullName(mem, ITEM * i)
    ensures order == 0 <==> Answers(mem, i, CStr(name[..]))
  {
    order := StrIcmp(filename, name);
  }

  /** fat16_find_item_in_directory for file items: a copy of the last item that answers to the name. */
  method FindItem(mem: seq<byte>, total: nat, name: array<byte>) returns (item: Option<Item>, ghost found: nat)
    requires ITEM * total <= |mem| && IsString(name[..])
    requires forall i: nat | i < total :: |FullName(mem, ITEM * i)| < MAX_NAME
    ensures item.None? <==> forall i: nat | i < total :: !Answers(mem, i, CStr(name[..]))
    ensures item.Some? ==> found < total && Answers(mem, found, CStr(name[..]))
                           && (forall i | found < i < total :: !Answers(mem, i, CStr(name[..])))
                           && item.value == mem[ITEM * found..ITEM * found + ITEM]
  {
    item, found := None, 0;
    var filename := new byte[MAX_NAME];
    ghost var text := CStr(name[..]);
    for i := 0 to total
      invariant item.None? <==> forall k: nat | k < i :: !Answers(mem, k, text)
      invariant item.Some? ==> found < i && Answers(mem, found, text) && (forall k | found < k < i :: !Answers(mem, k, text))
                               && item.value == mem[ITEM * found..ITEM * found + ITEM]
      invariant CStr(name[..]) == text && IsString(name[..])
    {
      assert |FullName(mem, ITEM * i)| < MAX_NAME;
      FullRelativeName(mem, ITEM * i, filename);
      var order := Compare(filename, name, mem, i);
      if order == 0 {
        item, found := Some(mem[ITEM * i..ITEM * i + ITEM]), i;
      }
    }
  }

  /** Such an item answers to the names that equal its own but for the case of ASCII letters. */
  lemma AnswersIff(mem: seq<byte>, i: nat, base: seq<byte>, ext: seq<byte>, name: seq<byte>)
    requires |base| < 8 && |ext| <= 3 && Spelled(mem, 32 * i, base) && Spelled(mem, 32 * i + 8, ext)
    ensures var own := if ext == [] then base else base + [46] + ext;
            Answers(mem, i, name) <==>
            |name| == |own| && forall k | 0 <= k < |own| ::
              var a: int, b: int := own[k], name[k];
              a == b || (65 <= a <= 90 && b == a + 32) || (65 <= b <= 90 && a == b + 32)
  {
    NameIs(mem, 32 * i, base, ext);
  }

  /** In a directory spelled right the lookup is by 8.3 name, up to the case of letters. */
  lemma AnswersByShortName(mem: seq<byte>, i: nat, name: seq<byte>)
    requires SpellsRight(mem, ITEM * i)
    ensures Answers(mem, i, name) <==> SameUpToCase(ShortName(mem, ITEM * i), name)
    ensures |FullName(mem, ITEM * i)| <= BASE + 1 + EXT
  {
    FullNameIsShortNameIff(mem, ITEM * i);
    RunIsField(mem, ITEM * i, BASE);
    RunIsField(mem, ITEM * i + BASE, EXT);
  }
}
