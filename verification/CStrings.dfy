/** Zero-terminated strings in a memory of bytes. */
module CStrings {
  import opened Machine

  ghost predicate Terminated(mem: seq<byte>, a: int) {
    0 <= a && exists z :: a <= z < |mem| && mem[z] == 0
  }

  /** The string at address `a`. */
  ghost function CStr(mem: seq<byte>, a: int): (s: seq<byte>)
    requires Terminated(mem, a)
    ensures 0 !in s
    ensures s == [] <==> mem[a] == 0
    ensures s != [] ==> s[0] == mem[a]
    decreases |mem| - a
  {
    if mem[a] == 0 then [] else [mem[a]] + CStr(mem, a + 1)
  }

  lemma CStrStep(mem: seq<byte>, a: int)
    requires Terminated(mem, a) && mem[a] != 0
    ensures Terminated(mem, a + 1) && CStr(mem, a) == [mem[a]] + CStr(mem, a + 1)
  {
  }

  /** It lies there, with a zero behind it. */
  lemma {:induction false} CStrLiesThere(mem: seq<byte>, a: nat)
    requires Terminated(mem, a)
    ensures var s := CStr(mem, a); a + |s| < |mem| && mem[a..a + |s|] == s && 0 !in s && mem[a + |s|] == 0
    decreases |mem| - a
  {
    if mem[a] != 0 {
      CStrStep(mem, a);
      CStrLiesThere(mem, a + 1);
    }
  }

  lemma {:induction false} CStrIs(mem: seq<byte>, a: nat, s: seq<byte>)
    requires a + |s| < |mem| && mem[a..a + |s|] == s && 0 !in s && mem[a + |s|] == 0
    ensures Terminated(mem, a) && CStr(mem, a) == s
    decreases |s|
  {
    if s != [] {
      assert mem[a] == s[0];
      CStrIs(mem, a + 1, s[1..]);
    }
  }
}
