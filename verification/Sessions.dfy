/** What the engines know of a session. */
module Sessions {

  datatype Allocation = Allocation(id: string, slot: nat)
}
