/** What every protocol decoder counts of the transfers it is handed. */
module InterfaceExperts {
  import opened Wire

  datatype Traffic = Traffic(controlPackets: nat, controlBytes: nat, packets: nat, bytes: nat) {
    function Control(data: Bytes): Traffic {
      this.(controlPackets := controlPackets + 1, controlBytes := controlBytes + |data|)
    }

    function Bulk(data: Bytes): Traffic {
      this.(packets := packets + 1, bytes := bytes + |data|)
    }
  }

  const QUIET: Traffic := Traffic(0, 0, 0, 0)
}
