/** Which segments of a program go into which section of the packed file, read off the bits of the program headers. */
module RiruSegments {
  import opened LittleEndian
  import opened RiruPack

  /** The headers that pass the test, in table order. */
  function Select(phs: seq<Ph>, keep: Ph -> bool): seq<Ph> {
    if phs == [] then []
    else if keep(phs[|phs| - 1]) then Select(phs[..|phs| - 1], keep) + [phs[|phs| - 1]]
    else Select(phs[..|phs| - 1], keep)
  }

  lemma {:induction false} SelectedMeans(phs: seq<Ph>, keep: Ph -> bool, ph: Ph)
    ensures ph in Select(phs, keep) <==> ph in phs && keep(ph)
  {
    if phs != [] {
      assert ph in phs <==> ph in phs[..|phs| - 1] || ph == phs[|phs| - 1];
      SelectedMeans(phs[..|phs| - 1], keep, ph);
    }
  }

  /** Loadable and executable. */
  function CodeBits(): Ph -> bool {
    (ph: Ph) => ph.kind == 1 && ph.flags % 2 == 1
  }

  /** Loadable and writable, but not executable. */
  function DataBits(): Ph -> bool {
    (ph: Ph) => ph.kind == 1 && ph.flags % 2 == 0 && ph.flags / 2 % 2 == 1
  }

  /** Loadable, neither executable nor writable, and not below the first code address. */
  function RodataBits(firstCode: u64): Ph -> bool {
    (ph: Ph) => ph.kind == 1 && ph.flags % 2 == 0 && ph.flags / 2 % 2 == 0 && firstCode <= ph.vaddr
  }

  lemma {:induction false} MembersAreSelected(phs: seq<Ph>, firstCode: u64, class_: Class, keep: Ph -> bool)
    requires forall ph :: ClassOf(ph, firstCode) == class_ <==> keep(ph)
    ensures Members(phs, firstCode, class_) == Select(phs, keep)
  {
    if phs != [] {
      MembersAreSelected(phs[..|phs| - 1], firstCode, class_, keep);
    }
  }

  /** Memory that is not in the file, over all these headers. */
  function ZeroBytes(phs: seq<Ph>): nat {
    if phs == [] then 0
    else
      var last := phs[|phs| - 1];
      ZeroBytes(phs[..|phs| - 1]) + Beyond(last)
  }

  function Beyond(ph: Ph): nat {
    if ph.memsz > ph.filesz then ph.memsz - ph.filesz else 0
  }

  lemma {:induction false} BssIsZeroBytes(phs: seq<Ph>, firstCode: u64)
    ensures BssSize(phs, firstCode) == ZeroBytes(Select(phs, DataBits())) % 0x1_0000_0000_0000_0000
  {
    if phs != [] {
      var before, last := phs[..|phs| - 1], phs[|phs| - 1];
      BssIsZeroBytes(before, firstCode);
      hide ZeroBytes, Beyond, Wrap;
      OneMore(Select(before, DataBits()), last);
      BssOfOneMore(before, last, phs, firstCode);
      hide Select, BssSize, DataBits;
      WrappedSum(ZeroBytes(Select(before, DataBits())), Beyond(last));
    }
  }

  lemma OneMore(rest: seq<Ph>, last: Ph)
    ensures ZeroBytes(rest + [last]) == ZeroBytes(rest) + Beyond(last)
  {
    var all := rest + [last];
    assert all[..|all| - 1] == rest && all[|all| - 1] == last;
    hide Beyond;
  }

  lemma BssOfOneMore(before: seq<Ph>, last: Ph, phs: seq<Ph>, firstCode: u64)
    requires phs != [] && before == phs[..|phs| - 1] && last == phs[|phs| - 1]
    ensures BssSize(phs, firstCode) ==
              if DataBits()(last) then Wrap(BssSize(before, firstCode) + Beyond(last)) else BssSize(before, firstCode)
  {
    WrapSmall(BssSize(before, firstCode));
    hide Wrap;
  }

  lemma WrappedSum(a: nat, b: nat)
    ensures Wrap(a % 0x1_0000_0000_0000_0000 + b) == (a + b) % 0x1_0000_0000_0000_0000
  {
    var n := 0x1_0000_0000_0000_0000;
    assert a == a / n * n + a % n;
    assert (a + b) % n == (a % n + b + a / n * n) % n;
  }

  /** The lowest address of a loadable executable segment; all ones without one. */
  lemma {:induction false} FirstCodeIsLowest(phs: seq<Ph>)
    ensures forall ph :: ph in phs && CodeBits()(ph) ==> FirstCode(phs) <= ph.vaddr
    ensures FirstCode(phs) == 0xFFFF_FFFF_FFFF_FFFF
            || exists ph :: ph in phs && CodeBits()(ph) && ph.vaddr == FirstCode(phs)
  {
    if phs != [] {
      FirstCodeIsLowest(phs[..|phs| - 1]);
    }
  }

  /** The classes, by the headers' own bits. */
  lemma ClassesByBits(phs: seq<Ph>, firstCode: u64)
    ensures Members(phs, firstCode, Code) == Select(phs, CodeBits())
    ensures Members(phs, firstCode, Data) == Select(phs, DataBits())
    ensures Members(phs, firstCode, Rodata) == Select(phs, RodataBits(firstCode))
  {
    MembersAreSelected(phs, firstCode, Code, CodeBits());
    MembersAreSelected(phs, firstCode, Data, DataBits());
    MembersAreSelected(phs, firstCode, Rodata, RodataBits(firstCode));
  }

  /** The three spans of a packed file are the merges of these segments, and its zero-filled part is as long as the
      writable segments' memory beyond their bytes, to 64 bits. */
  lemma SpansByBits(elf: seq<byte>)
    requires Packable(elf)
    ensures var phs := Headers(elf);
            var first, s := FirstCode(phs), SpansOf(elf);
            && IsMerge(s.code, Select(phs, CodeBits()))
            && IsMerge(s.data, Select(phs, DataBits()))
            && IsMerge(s.rodata, Select(phs, RodataBits(first)))
            && s.bssSize == ZeroBytes(Select(phs, DataBits())) % 0x1_0000_0000_0000_0000
            && first != 0xFFFF_FFFF_FFFF_FFFF
  {
    hide IsMerge, Gather;
    SpansInFile(elf);
    var phs := Headers(elf);
    ClassesByBits(phs, FirstCode(phs));
    BssIsZeroBytes(phs, FirstCode(phs));
  }
}
