/** Memory as the collector sees it: word addresses, object ages, tagged values and object bodies. */
module HeapModel {

  /** Word addresses. Objects are two-word aligned, offset by one word in new space, so the age is in the address. */
  type Addr = nat

  predicate IsNew(a: Addr) { a % 2 == 1 }

  datatype Value = Smi(n: int) | Ref(addr: Addr)

  predicate IsNewRef(v: Value) { v.Ref? && IsNew(v.addr) }

  const WEAK_ARRAY_CID: nat := 10
  const EPHEMERON_CID: nat := 11
  const FIRST_LEGAL_CID: nat := 3

  predicate IsStrong(cid: nat) { cid != WEAK_ARRAY_CID && cid != EPHEMERON_CID }

  /** An object, or the forwarding pointer that replaces the header of one already moved. */
  datatype Cell =
    | Obj(cid: nat, size: nat, remembered: bool, data: seq<int>, slots: seq<Value>)
    | Forwarded(to: Addr)

  type Memory = map<Addr, Cell>

  /** Everything about an object that neither its slots nor its place in the remembered set decide. */
  ghost predicate SameBody(a: Cell, b: Cell)
  {
    a.Obj? && b.Obj? && a.cid == b.cid && a.size == b.size && a.data == b.data && |a.slots| == |b.slots|
  }
}
