/**
  The link step of a module: generated code is copied to executable memory and the address of each
  directly called function is written into the immediate of its call.
*/
module Link {
  import opened Words
  import opened X86
  import opened ByteWriter
  import opened Emission

  function BaseOf(bases: seq<Word>, func: nat): Word {
    if func < |bases| then bases[func] else 0
  }

  ghost predicate CallsFit(calls: seq<CallSite>, size: nat) {
    forall k :: 0 <= k < |calls| ==> calls[k].offset + 8 <= size
  }

  /** The second loop for one function: each recorded immediate gets its target's address. */
  function LinkAll(code: seq<Byte>, calls: seq<CallSite>, bases: seq<Word>): (r: seq<Byte>)
    requires CallsFit(calls, |code|)
    ensures |r| == |code|
  {
    if |calls| == 0 then code
    else
      var c := calls[|calls| - 1];
      Patched(LinkAll(code, calls[..|calls| - 1], bases), c.offset, ToLE(8, BaseOf(bases, c.func)))
  }

  /** A direct call whose target is known is a plain load of an address. */
  function LinkedItem(a: Asm, bases: seq<Word>): (b: Asm)
    ensures b.Size() == a.Size()
  {
    match a
    case CallHole(f) => MovImm(RAX, BaseOf(bases, f))
    case _ => a
  }

  function LinkedItems(items: seq<Asm>, bases: seq<Word>): (r: seq<Asm>)
    ensures |r| == |items| && forall k :: 0 <= k < |items| ==> r[k] == LinkedItem(items[k], bases)
  {
    seq(|items|, k requires 0 <= k < |items| => LinkedItem(items[k], bases))
  }

  lemma {:induction false} LinkedSize(items: seq<Asm>, bases: seq<Word>)
    ensures SizeOf(LinkedItems(items, bases)) == SizeOf(items)
  {
    if |items| > 0 {
      LinkedSize(items[..|items| - 1], bases);
      assert LinkedItems(items, bases)[..|items| - 1] == LinkedItems(items[..|items| - 1], bases);
    }
  }

  lemma {:induction false} CallSitesInside(items: seq<Asm>)
    ensures CallsFit(CallSites(items), SizeOf(items))
  {
    if |items| > 0 {
      CallSitesInside(items[..|items| - 1]);
    }
  }

  lemma {:induction false} LinkPrefix(code: seq<Byte>, tail: seq<Byte>, calls: seq<CallSite>, bases: seq<Word>)
    requires CallsFit(calls, |code|)
    ensures LinkAll(code + tail, calls, bases) == LinkAll(code, calls, bases) + tail
    decreases |calls|
  {
    if |calls| > 0 {
      var before, c := calls[..|calls| - 1], calls[|calls| - 1];
      LinkPrefix(code, tail, before, bases);
      PatchedHead(LinkAll(code, before, bases), tail, c.offset, ToLE(8, BaseOf(bases, c.func)));
    }
  }

  lemma LinkLast(code: seq<Byte>, func: nat, base: Word, disp: int)
    ensures Patched(code + Encode(CallHole(func), disp), |code| + 2, ToLE(8, base)) == code + Encode(MovImm(RAX, base), disp)
  {
    PatchedTail(code, Encode(CallHole(func), disp), 2, ToLE(8, base));
    assert Patched(Encode(CallHole(func), disp), 2, ToLE(8, base)) == Encode(MovImm(RAX, base), disp);
  }

  lemma LinkedDisplacement(items: seq<Asm>, bases: seq<Word>, offsets: seq<nat>, k: nat)
    requires k < |items|
    ensures ItemDisplacement(LinkedItems(items, bases), k, offsets) == ItemDisplacement(items, k, offsets)
  {
    LinkedSize(items[..k], bases);
    assert LinkedItems(items, bases)[..k] == LinkedItems(items[..k], bases);
  }

  /**
    Linking the finished code of a function turns exactly its direct calls into loads of their
    targets' addresses: the result is the resolved code of the linked instructions, so branches
    and every other instruction are untouched.
  */
  lemma {:induction false} LinkingResolvesCalls(items: seq<Asm>, offsets: seq<nat>, bases: seq<Word>)
    ensures CallsFit(CallSites(items), SizeOf(items))
    ensures LinkAll(Resolved(items, offsets), CallSites(items), bases) == Resolved(LinkedItems(items, bases), offsets)
  {
    hide Encode, Patched;
    CallSitesInside(items);
    if |items| > 0 {
      var n := |items| - 1;
      var before, a := items[..n], items[n];
      var disp := ItemDisplacement(items, n, offsets);
      LinkingResolvesCalls(before, offsets, bases);
      LinkPrefix(Resolved(before, offsets), Encode(a, disp), CallSites(before), bases);
      LinkedDisplacement(items, bases, offsets, n);
      assert LinkedItems(items, bases)[..n] == LinkedItems(before, bases);
      if a.CallHole? {
        assert CallSites(items)[..|CallSites(before)|] == CallSites(before);
        LinkLast(LinkAll(Resolved(before, offsets), CallSites(before), bases), a.func, BaseOf(bases, a.func), disp);
      } else {
        assert CallSites(items) == CallSites(before);
      }
    }
  }

  /** In linked code a direct call decodes to the load of its target's address, recursive or forward alike. */
  lemma LinkedCallDecodes(items: seq<Asm>, offsets: seq<nat>, bases: seq<Word>, k: nat)
    requires k < |items| && items[k].CallHole? && SmallCode(items, offsets)
    ensures CallsFit(CallSites(items), SizeOf(items))
    ensures var code := LinkAll(Resolved(items, offsets), CallSites(items), bases);
            var target := items[k].func;
            Decode(code, OffsetOf(items, k)) ==
            Some(Decoded(IMovImm(RAX, if target < |bases| then bases[target] else 0), OffsetOf(items, k + 1)))
  {
    hide Decode, Raw, Resolved;
    LinkingResolvesCalls(items, offsets, bases);
    LinkedSize(items, bases);
    LinkedSize(items[..k], bases);
    LinkedSize(items[..k + 1], bases);
    var linked := LinkedItems(items, bases);
    assert linked[..k] == LinkedItems(items[..k], bases);
    assert linked[..k + 1] == LinkedItems(items[..k + 1], bases);
    DecodesItem(linked, offsets, k);
  }

  // ----- the address that each field ends up with -----

  /** The address in the eight bytes at an offset. */
  function Address(bytes: seq<Byte>, offset: nat): int
    requires offset + 8 <= |bytes|
  {
    FromLE(bytes[offset..offset + 8])
  }

  ghost predicate CallsApart(calls: seq<CallSite>) {
    forall j, k :: 0 <= j < k < |calls| ==> calls[j].offset + 8 <= calls[k].offset
  }

  lemma AddressWritten(bytes: seq<Byte>, offset: nat, address: Word)
    requires offset + 8 <= |bytes|
    ensures Address(Patched(bytes, offset, ToLE(8, address)), offset) == address
  {
    hide ToLE, FromLE;
    assert Patched(bytes, offset, ToLE(8, address))[offset..offset + 8] == ToLE(8, address);
    RoundTripLE(8, address);
    Pow256Values();
  }

  lemma AddressKept(bytes: seq<Byte>, offset: nat, at: nat, patch: seq<Byte>)
    requires at + 8 <= |bytes| && |patch| == 8 && at + 8 <= offset && offset + 8 <= |bytes|
    ensures Address(Patched(bytes, offset, patch), at) == Address(bytes, at)
  {
    assert Patched(bytes, offset, patch)[at..at + 8] == bytes[at..at + 8];
  }

  /** Every immediate reads back as the address of the function its call names. */
  lemma {:induction false} LinkedAddress(code: seq<Byte>, calls: seq<CallSite>, bases: seq<Word>, k: nat)
    requires CallsFit(calls, |code|) && CallsApart(calls) && k < |calls| && calls[k].func < |bases|
    ensures Address(LinkAll(code, calls, bases), calls[k].offset) == bases[calls[k].func]
    decreases |calls|
  {
    hide Address, ToLE, Patched;
    var n := |calls| - 1;
    var before := LinkAll(code, calls[..n], bases);
    var bytes := ToLE(8, BaseOf(bases, calls[n].func));
    if k < n {
      LinkedAddress(code, calls[..n], bases, k);
      AddressKept(before, calls[n].offset, calls[k].offset, bytes);
    } else {
      AddressWritten(before, calls[n].offset, BaseOf(bases, calls[n].func));
    }
  }

  // ----- which bytes the two patch passes touch -----

  predicate InField(p: nat, offset: nat, size: nat) {
    offset <= p < offset + size
  }

  /** Bytes outside every rel32 field are as generated. */
  lemma {:induction false} PatchingTouchesSites(bytes: seq<Byte>, sites: seq<Site>, offsets: seq<nat>, p: nat)
    requires SitesFit(sites, |bytes|) && p < |bytes|
    requires forall k :: 0 <= k < |sites| ==> !InField(p, sites[k].offset, 4)
    ensures PatchAll(bytes, sites, offsets)[p] == bytes[p]
    decreases |sites|
  {
    if |sites| > 0 {
      PatchingTouchesSites(bytes, sites[..|sites| - 1], offsets, p);
      assert !InField(p, sites[|sites| - 1].offset, 4);
    }
  }

  /** Bytes outside every call immediate are as finished. */
  lemma {:induction false} LinkingTouchesCalls(code: seq<Byte>, calls: seq<CallSite>, bases: seq<Word>, p: nat)
    requires CallsFit(calls, |code|) && p < |code|
    requires forall k :: 0 <= k < |calls| ==> !InField(p, calls[k].offset, 8)
    ensures LinkAll(code, calls, bases)[p] == code[p]
    decreases |calls|
  {
    if |calls| > 0 {
      LinkingTouchesCalls(code, calls[..|calls| - 1], bases, p);
      assert !InField(p, calls[|calls| - 1].offset, 8);
    }
  }

  /** No two fields overlap: not two rel32 fields, not two immediates, not one of each. */
  ghost predicate FieldsDisjoint(sites: seq<Site>, calls: seq<CallSite>) {
    && (forall j, k :: 0 <= j < k < |sites| ==> sites[j].offset + 4 <= sites[k].offset)
    && CallsApart(calls)
    && (forall j, k :: 0 <= j < |sites| && 0 <= k < |calls| ==>
          sites[j].offset + 4 <= calls[k].offset || calls[k].offset + 8 <= sites[j].offset)
  }

  lemma {:induction false} AllFieldsDisjoint(items: seq<Asm>)
    ensures FieldsDisjoint(Sites(items), CallSites(items))
    ensures SitesFit(Sites(items), SizeOf(items)) && CallsFit(CallSites(items), SizeOf(items))
  {
    SitesInside(items);
    CallSitesInside(items);
    if |items| > 0 {
      var before := items[..|items| - 1];
      AllFieldsDisjoint(before);
    }
  }

  // ----- the two loops over a module -----

  /** memcpy of the code and the byte after it; there is none when nothing has been written. */
  method CopyCode(w: Writer, region: array<Byte>) returns (ok: bool)
    requires w.Valid() && region.Length == w.currentIndex + 1 && region != w.data
    modifies region
    ensures ok <==> w.currentIndex > 0
    ensures ok ==> region[..w.currentIndex] == w.Contents() && region[w.currentIndex] == w.data[w.currentIndex]
  {
    if w.currentIndex >= w.data.Length {
      return false;
    }
    for k := 0 to w.currentIndex + 1
      invariant forall j :: 0 <= j < k ==> region[j] == w.data[j]
    {
      region[k] := w.data[k];
    }
    return true;
  }

  method WriteAddress(region: array<Byte>, offset: nat, address: Word)
    requires offset + 8 <= region.Length
    modifies region
    ensures region[..] == Patched(old(region[..]), offset, ToLE(8, address))
  {
    ghost var before := region[..];
    var bytes := ToLE(8, address);
    for k := 0 to 8
      invariant forall j :: 0 <= j < region.Length ==>
                  region[j] == if offset <= j < offset + k then bytes[j - offset] else before[j]
    {
      region[offset + k] := bytes[k];
    }
  }

  method LinkCalls(region: array<Byte>, calls: seq<CallSite>, bases: seq<Word>)
    requires CallsFit(calls, region.Length)
    modifies region
    ensures region[..] == LinkAll(old(region[..]), calls, bases)
    ensures CallsApart(calls) ==> forall k :: 0 <= k < |calls| && calls[k].func < |bases| ==>
              Address(region[..], calls[k].offset) == bases[calls[k].func]
  {
    ghost var before := region[..];
    for k := 0 to |calls|
      invariant CallsFit(calls[..k], region.Length)
      invariant region[..] == LinkAll(before, calls[..k], bases)
    {
      assert calls[..k + 1][..k] == calls[..k];
      WriteAddress(region, calls[k].offset, BaseOf(bases, calls[k].func));
    }
    assert calls[..|calls|] == calls;
    forall k | 0 <= k < |calls| && CallsApart(calls) && calls[k].func < |bases|
      ensures Address(region[..], calls[k].offset) == bases[calls[k].func]
    {
      LinkedAddress(before, calls, bases, k);
    }
  }
}
