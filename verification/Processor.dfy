/** How the processor translates an address: 4-level paging as section 4.5 of Intel SDM Volume 3A
    describes it, with the access rights of section 4.6. It knows nothing of the code that builds
    the tables. Physical memory is read through the direct map at hhdm. */
module Processor {
  import opened Memory

  /** A page fault, a large page, or a 4 KiB page with the rights all levels grant. */
  datatype Translation = Fault | LargePage | Page(physical: nat, writable: bool, user: bool, executable: bool)

  /** Bytes that one entry of a table at this level reaches. */
  function Reach(level: nat): nat {
    if level <= 1 then 0x1000
    else if level == 2 then 0x20_0000
    else if level == 3 then 0x4000_0000
    else 0x80_0000_0000
  }

  /** Bits 51 to 12 of an entry. */
  function Frame(e: int): nat {
    e / 0x1000 % 0x100_0000_0000 * 0x1000
  }

  predicate IsPresent(e: int) {
    e % 2 == 1
  }

  predicate IsWritable(e: int) {
    e / 2 % 2 == 1
  }

  predicate IsUser(e: int) {
    e / 4 % 2 == 1
  }

  predicate IsLarge(e: int) {
    e / 0x80 % 2 == 1
  }

  predicate IsExecutable(e: int) {
    e / 0x8000_0000_0000_0000 % 2 == 0
  }

  /** From the table of this level on, with the rights the levels above it grant. */
  function TranslateFrom(m: Words, hhdm: nat, table: nat, level: nat, va: nat,
      writable: bool, user: bool, executable: bool): Translation
    requires level >= 1
    decreases level
  {
    var e := At(m, table + 8 * (va / Reach(level) % 512));
    var w, u, x := writable && IsWritable(e), user && IsUser(e), executable && IsExecutable(e);
    if !IsPresent(e) then Fault
    else if level == 1 then Page(Frame(e) + va % 0x1000, w, u, x)
    else if IsLarge(e) then LargePage
    else TranslateFrom(m, hhdm, hhdm + Frame(e), level - 1, va, w, u, x)
  }

  function Translate(m: Words, hhdm: nat, root: nat, va: nat): Translation {
    TranslateFrom(m, hhdm, root, 4, va, true, true, true)
  }

  /** Two addresses the processor translates through the same entries. */
  predicate SamePage(a: nat, b: nat) {
    a / 0x1000 % 0x10_0000_0000 == b / 0x1000 % 0x10_0000_0000
  }

  /** Some byte of [start, start + size) lies in the page of va. */
  ghost predicate Touches(start: nat, size: nat, va: nat) {
    exists a: nat :: start <= a < start + size && SamePage(a, va)
  }

  /** What a byte mapped with these flags should translate to. */
  function Granted(physical: nat, flags: nat): Translation {
    if !IsPresent(flags) then Fault
    else Page(physical, IsWritable(flags), IsUser(flags), IsExecutable(flags))
  }

  /** From memory m0 to m1, each byte of the range has come to translate to its own target byte with
      the flags' rights, and an address in no page of the range translates as it did. */
  ghost predicate BytesMapped(m0: Words, m1: Words, hhdm: nat, root: nat, v: nat, p: nat, size: nat, flags: nat) {
    forall va: nat ::
      && (v <= va < v + size ==> Translate(m1, hhdm, root, va) == Granted(p + (va - v), flags))
      && (!Touches(v, size, va) ==> Translate(m1, hhdm, root, va) == Translate(m0, hhdm, root, va))
  }
}
