/** api_lib.h: local and remote ports, and adapters. */
module Ports {
  import opened Wrappers
  import opened CText
  import opened SaTables
  import opened Rports
  import opened AdapterNames

  // struct port_info: a local port, or a remote port found by the scan.
  class PortInfo {
    var adapt: AdapterInfo?
    const index: u32
    const discIndex: u32
    const scsiTarget: u32
    const kernHba: u32
    const attr: Attr
    const rports: SaTable<PortInfo>

    constructor (key: Key, discIndex: u32, scsiTarget: u32, attr: Attr, adapt: AdapterInfo?)
      ensures Record() == Rec(key, discIndex, scsiTarget, attr)
      ensures this.adapt == adapt
      ensures fresh(rports) && rports.Valid() && rports.Slots() == []
    {
      this.kernHba, this.index := key.hba, key.channel;
      this.discIndex, this.scsiTarget, this.attr := discIndex, scsiTarget, attr;
      this.adapt := adapt;
      rports := new SaTable<PortInfo>();
    }

    function PortKey(): Key {
      Key(kernHba, index)
    }

    // For a remote port: the record it was made from.
    function Record(): Rec {
      Rec(PortKey(), discIndex, scsiTarget, attr)
    }
  }

  // struct adapter_info.
  class AdapterInfo {
    var adIndex: nat
    const kernIndex: u32
    const name: HostName
    const nodeWwn: Wwn
    const ports: SaTable<PortInfo>

    constructor (kernIndex: u32, name: HostName, nodeWwn: Wwn)
      ensures this.kernIndex == kernIndex && this.name == name && this.nodeWwn == nodeWwn
      ensures fresh(ports) && ports.Valid() && ports.Slots() == []
    {
      adIndex := 0;
      this.kernIndex, this.name, this.nodeWwn := kernIndex, name, nodeWwn;
      ports := new SaTable<PortInfo>();
    }
  }
}
