/** Numbering of event channels by machine word and bit. */
module EventPort {

  const BITS := 64

  /** Bit `bit` of pending word `word`. */
  datatype Port = Port(word: nat, bit: nat) {
    function Number(): nat {
      word * BITS + bit
    }
  }
}
