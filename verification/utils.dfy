/** The `utils` helpers of src/lib.rs: building a NUL-terminated byte string from a Rust string
    and reading one back from a raw pointer.  A raw pointer is modelled as a byte sequence `mem`
    (the memory reachable from it) together with a start index `p`. */
module Utils {
  import opened RustCore

  /** The memory from `p` on holds a NUL byte, so a scan for the terminator stops inside it. */
  predicate HasNul(mem: seq<Byte>, p: nat)
  {
    exists k :: p <= k < |mem| && mem[k] == 0
  }

  /** No byte of `s` is NUL. */
  predicate NoNul(s: seq<Byte>)
  {
    forall i :: 0 <= i < |s| ==> s[i] != 0
  }

  /** Index of the first NUL byte at or after `p`. */
  function NulIndex(mem: seq<Byte>, p: nat): (k: nat)
    requires HasNul(mem, p)
    decreases |mem| - p
    ensures p <= k < |mem| && mem[k] == 0
    ensures forall j :: p <= j < k ==> mem[j] != 0
  {
    if mem[p] == 0 then p else NulIndex(mem, p + 1)
  }

  /** The first NUL is the only zero byte that follows a run of non-zero bytes. */
  lemma NulIndexUnique(mem: seq<Byte>, p: nat, k: nat)
    requires p <= k < |mem| && mem[k] == 0
    requires forall j :: p <= j < k ==> mem[j] != 0
    ensures HasNul(mem, p) && NulIndex(mem, p) == k
  {
  }

  /** The bytes `cstring_from_str` produces: the string's bytes followed by one 0. */
  function CString(s: seq<Byte>): (r: seq<Byte>)
    ensures |r| == |s| + 1
    ensures r[..|s|] == s && r[|s|] == 0
  {
    s + [0]
  }

  /** `cstring_from_str`: convert the string to bytes, then push a 0.  Unlike `CString::new`
      it does not look for interior NUL bytes. */
  method CStringFromStr(s: seq<Byte>) returns (v: seq<Byte>)
    ensures v == CString(s)
    ensures |v| == |s| + 1 && v[|s|] == 0 && v[..|s|] == s
  {
    v := s;
    v := v + [0];
  }

  /** `strlen`: advance from `p` while the current byte is not 0, counting the steps. */
  method Strlen(mem: seq<Byte>, p: nat) returns (n: nat)
    requires HasNul(mem, p)
    ensures p + n == NulIndex(mem, p)
    ensures p + n < |mem| && mem[p + n] == 0
    ensures forall j :: p <= j < p + n ==> mem[j] != 0
  {
    n := 0;
    while mem[p + n] != 0
      invariant p + n <= NulIndex(mem, p)
      invariant forall j :: p <= j < p + n ==> mem[j] != 0
      decreases NulIndex(mem, p) - (p + n)
    {
      n := n + 1;
    }
  }

  /** What `cstr_from_ptr` returns: the bytes from `p` up to AND INCLUDING the first NUL. */
  function CStr(mem: seq<Byte>, p: nat): (r: seq<Byte>)
    requires HasNul(mem, p)
    ensures |r| >= 1 && r[|r| - 1] == 0
    ensures NoNul(r[..|r| - 1])
    ensures p + |r| <= |mem| && r == mem[p..p + |r|]
  {
    mem[p..NulIndex(mem, p) + 1]
  }

  /** What `CStr::from_ptr(..).to_bytes()` of the standard library yields: the bytes from `p`
      up to, but excluding, the first NUL. */
  function CStrBytes(mem: seq<Byte>, p: nat): (r: seq<Byte>)
    requires HasNul(mem, p)
    ensures NoNul(r)
    ensures p + |r| < |mem| && mem[p + |r|] == 0 && r == mem[p..p + |r|]
  {
    mem[p..NulIndex(mem, p)]
  }

  /** `cstr_from_ptr`: measure with `strlen`, then take `strlen + 1` bytes, so the result keeps
      the terminator. */
  method CStrFromPtr(mem: seq<Byte>, p: nat) returns (r: seq<Byte>)
    requires HasNul(mem, p)
    ensures r == CStr(mem, p)
    ensures |r| == NulIndex(mem, p) - p + 1 && r[|r| - 1] == 0
  {
    var len := Strlen(mem, p);
    r := mem[p..p + len + 1];
  }

  /** The two readers see the same string: `cstr_from_ptr` only adds the terminator. */
  lemma CStrKeepsTerminator(mem: seq<Byte>, p: nat)
    requires HasNul(mem, p)
    ensures CStr(mem, p) == CStrBytes(mem, p) + [0]
  {
  }

  /** Round trip: a string without NUL bytes, made into a C string and read back with
      `cstr_from_ptr`, gives its bytes followed by exactly one 0. */
  lemma {:induction false} CStrOfCString(s: seq<Byte>)
    requires NoNul(s)
    ensures HasNul(CString(s), 0)
    ensures CStr(CString(s), 0) == CString(s)
    ensures CStrBytes(CString(s), 0) == s
  {
    var c := CString(s);
    assert forall j :: 0 <= j < |s| ==> c[j] == s[j];
    NulIndexUnique(c, 0, |s|);
  }

  /** An interior NUL cuts the round trip short: reading back stops at the first 0 of `s`, so
      the result is shorter than `cstring_from_str(s)`. */
  lemma {:induction false} CStrStopsAtInteriorNul(s: seq<Byte>, i: nat)
    requires i < |s| && s[i] == 0 && NoNul(s[..i])
    ensures HasNul(CString(s), 0)
    ensures CStr(CString(s), 0) == s[..i] + [0]
    ensures |CStr(CString(s), 0)| < |CString(s)|
  {
    var c := CString(s);
    assert forall j :: 0 <= j < i ==> c[j] == s[..i][j];
    NulIndexUnique(c, 0, i);
    assert c[..i + 1] == s[..i] + [0];
  }
}
