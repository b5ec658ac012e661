# A verified model of demuxusb

demuxusb reads USB captures of Apple devices: a container walk delivers packets, a link type decoder reads transfer
events from them, a device handle pairs submissions with completions, a device keeps descriptors and routes traffic to
protocol decoders, and the usbmux decoder reassembles packets, separates TCP connections and frames their property
lists. Every layer cuts units out of input that arrives in arbitrary pieces. This project models each layer and proves
that the pieces do not matter where they should not, says exactly when they do, and composes the layers.

Verify everything with `dafny verify dfyconfig.toml`.

## How the model is laid out

Code that changes objects step by step is a class whose methods are proved equal to a step function on the object's
value; loops keep their shape and carry invariants. Laws over whole runs are lemmas about the step functions, and so
hold of the objects. The laws are stated in terms of bytes, bits and calls, with the numbers that the formats and
protocols assign, and not through the step functions.

| files | layer |
|---|---|
| `Wire` | bytes, integers in both byte orders, lists of pieces |
| `PcapNG`, `PcapNGLaws`, `Pcap`, `PcapLaws` | containers |
| `LinkTypes`, `InputFile`, `Records` | packet layouts, the devices of a capture |
| `FormatLaws`, `CaptureLaws`, `CaptureFiles` | the five layouts printed and read, scripts of USB traffic, whole files |
| `Transfers`, `TransferLaws`, `SessionLaws`, `SessionRuns` | transfer correlation and device sessions |
| `Device`, `DeviceLaws`, `DeviceAccounts`, `Configuration`, `ConfigurationLaws`, `AttachmentLaws` | descriptors, attachment of decoders, routing |
| `Utf16`, `Utf16Laws` | string descriptors |
| `UsbMux`, `UsbMuxExpert`, `UsbMuxFraming`, `UsbMuxHistory`, `UsbMuxLaws`, `UsbMuxNames`, `UsbMuxWire`, `UsbMuxEndToEnd` | the usbmux demultiplexer |
| `MuxStream`, `MuxStreamLaws` | property list framing |
| `Dfu`, `Recovery`, `Cutting` | firmware images and recovery uploads |
| `InterfaceExperts` | what all protocol decoders count |
| `Deliveries`, `Enumeration` | what each decoder is handed, devices described in the capture, the configuration in use |
| `WholeStack`, `DeviceCaptures` | from the bytes of a file to messages, images and uploads |
| `Conversations`, `HostEnumeration`, `HeardDevices` | captures built from what is said: transfers in turn, enumerations, whole devices |

The main results, outermost first:

- `HeardDevices.PhoneIsHeard`, `HeardDevices.UpgradeIsHeard`, `HeardDevices.RestoreIsHeard`: descriptors, packets and
  requests are printed, a host enumerates the device, as often as it likes, and sends the rest, and the file of that, in
  any of five packet layouts and either container, gives back every message, image and upload.
- `DeviceCaptures.ScriptToMessages`, `DeviceCaptures.ScriptToImages`, `DeviceCaptures.ScriptToUploads`: from the file of
  a script that describes a device come the messages, images and uploads of the script's own transfers, of exactly
  those that find the configuration in use. `Enumeration.UseIsTold` says of the calls alone when it is.
- `CaptureFiles.FileDrivesDevices`: whatever the layout and container, a device goes through exactly the transfers
  completed at its place, those aborted or begun before the capture included.
- `PcapNGLaws.TruncationKeepsWholeBlocks` and `PcapNGLaws.FilesConcatenate`: what a truncated, and a concatenated,
  capture delivers.
- `TransferLaws.CallsAreCompletions`, `TransferLaws.SessionSafety` and `SessionLaws.SessionsRepeat`: correlation and
  sessions over every run.
- `UsbMuxEndToEnd.ConnectionDelivered`, `UsbMuxHistory.TableIsHistory` and `UsbMuxNames.ServiceNamesFollowHistory`:
  the demultiplexer over every run.
- `MuxStreamLaws.ChunkInvariance`, `UsbMuxFraming.ChunkInvariance` and `UsbMuxFraming.CutsDoNotMatter`: the exact
  conditions under which cuts do not matter.
- `ConfigurationLaws.AlternatesShareTheirExpert`, `DeviceLaws.AttachedRouting`, `AttachmentLaws.SessionsAreDue`:
  attachment and routing.
- `Utf16Laws.OutputIsUtf8`, `Dfu.ImagesAreSegments`, `Recovery.UploadsAreFiles`: text, images and uploads.

## Where the code does not do what one would expect

Each row names the theorem that says exactly when the property holds, and a lemma with an input that fails it.

| what fails | holds if and only if | fails at |
|---|---|---|
| A direction whose first message is shorter than a plist signature is classified by bytes past that message, so the outcome depends on how much had arrived. | `MuxStreamLaws.ChunkInvariance` | `MuxStreamLaws.OverrunIsPossible` |
| Losing usbmux framing discards whatever else arrived in the same transfer, so the outcome depends on the cut. | `UsbMuxFraming.ChunkInvariance`, on the bytes alone `UsbMuxFraming.CutsDoNotMatter` | `UsbMuxFraming.LossIsPossible` |
| A v1 usbmux packet whose first payload word is a magic is read as a v2 packet. | `UsbMuxFraming.ReadV1Packet` | `UsbMuxFraming.SomePacketIsMisread` |
| The generation counter of a connection wraps at 2^32: the stream of that generation is numbered zero, and those after it take the keys of earlier ones. | `UsbMuxLaws.HistoryIsExact` over runs, `UsbMuxLaws.BeginKeepsExact` for one step | `UsbMuxLaws.CounterWraps` |
| A new session is meant to be another device on the same address. A differing descriptor read starts one even if the device then rejects that read, so two sessions in a row may be of one device. | `SessionLaws.SessionsRepeat` over runs, `SessionLaws.DispatchKeepsDifference` for one step | `SessionLaws.SessionsMayRepeat` |
| The endpoint of two interfaces with different decoders is routed by SET_INTERFACE history. | `DeviceLaws.RoutingIndependence`, of stored configurations `DeviceLaws.AttachedRouting` | `DeviceLaws.SomeRoutingDepends` |
| A configuration keeps the decoders that were due when it was first read in full, so one read before the device descriptor keeps those of an unknown device. | `AttachmentLaws.SessionsAreDue` over runs, `AttachmentLaws.OtherVendorsAreIndifferent`, `UsbMuxMakesTheDifference`, `RecoveryMakesTheDifference` and `DfuMakesTheDifference` for one set | `HostEnumeration.SomePhoneLosesDecoder` |

## Model

| member | source | states |
|---|---|---|
| `HeardDevices.PhoneIsHeard` | test/CaptureBuilder.h:206-243 | For every Apple device with a usbmux interface on endpoints of its own, any further configurations and strings, and every list of printable packets of either version, whose segments carry length prefixed messages on some connection: the capture of its enumeration and of the packets sent one by one, with the device enumerated again at any time, in any packet layout and either container, gives the usbmux decoder of that interface exactly those messages in both directions, with empty buffers and no resync |
| `HeardDevices.UpgradeIsHeard` | src/protocol/DFUInterfaceExpert.cpp:42-115 | For every Apple device in DFU mode and any class and vendor requests made to it, enumerated again at any time, the capture of all that gives the images they download, also when it has several configurations and none is selected |
| `HeardDevices.RestoreIsHeard` | src/protocol/RecoveryInterfaceExpert.cpp:27-74 | For every Apple device in recovery mode and anything sent to it and back, enumerated again at any time, the capture of all that gives the bulk OUT data, cut at the announcements; with several configurations and none selected no bulk transfer is heard, and the requests still are |
| `Conversations.InTurnPerforms` | test/CaptureBuilder.h:57-96 | Transfers performed one after the other, with one identifier for all, are a script that meets what the results over scripts ask for, and makes exactly their calls |
| `HostEnumeration.EnumerationStands` | test/CaptureBuilder.h:163-177 | An enumeration, of the first 8 bytes of the device descriptor and then all of it, the header and then the set of every configuration, the strings, and a selection or none, be it the first or another of the same device, leaves the device described, exactly its configurations read, and the selection made; it holds neither bulk transfers nor class or vendor requests |
| `HostEnumeration.StandsAsChosen` | src/usb/Device.cpp:232-289 | After it the configuration prevails if and only if it is selected, or none is and it is the only one; and answers requests if and only if it is selected, or it is the lowest and none of those read is selected |
| `HostEnumeration.EarlyReadLosesDecoder` | src/usb/Device.cpp:112-135 | Inputs that fail: read a configuration with a usbmux interface before the device descriptor, and it never gets its usbmux decoder |
| `HostEnumeration.SomePhoneLosesDecoder` | src/usb/Device.cpp:112-135 | One such input: a phone with vendor 0x05AC and product 0x12A8 and one usbmux interface with an endpoint in each direction |
| `DeviceCaptures.ScriptToMessages` | src/protocol/USBMUXInterfaceExpert.cpp:115-204 | For any script whose last session at a place is of an Apple device with a usbmux interface: if the bulk transfers on the endpoints of that interface, while its configuration prevails, carry usbmux packets, the decoder recovers every message of every generation of a connection in both directions, from either container and any layout. The session is the first at the place, or started by a read of the device while another was known, and the device may be enumerated again in it |
| `DeviceCaptures.DescribedIsUsed` | src/usb/Device.cpp:232-289 | A call of a described device is decoded by the configuration with the decoders due on the device if and only if that prevails, for bulk transfers, or answers, for requests; otherwise none of its decoders is handed the call |
| `DeviceCaptures.UsbMuxTraffic` | src/usb/Device.cpp:232-266 | The usbmux decoder of an interface gets exactly the bulk transfers on the endpoints of that interface that complete while its configuration prevails, whatever configurations and alternate settings are selected among the calls |
| `DeviceCaptures.ModeTraffic` | src/usb/Device.cpp:232-289 | In DFU and recovery mode the decoder of a configuration gets exactly the transfers of declared endpoints while it prevails, and the class and vendor requests to the device or one of its interfaces while it answers |
| `DeviceCaptures.ScriptToImages` | src/protocol/DFUInterfaceExpert.cpp:58-84 | From the file of a script whose last session is of a device in DFU mode, the images are what the requests of the script download while the configuration answers, selected or the lowest with none selected, cut at empty downloads and aborts, without the empty pieces |
| `DeviceCaptures.ScriptToUploads` | src/protocol/RecoveryInterfaceExpert.cpp:27-69 | From the file of a script whose last session is of a device in recovery mode, the uploads are the bulk OUT data of the script while the configuration prevails, cut at the announcements made while it answers |
| `Enumeration.DescribedIsStored` | src/usb/Device.cpp:91-135 | Once its device descriptor is read, in whatever portions, and then a configuration, a device is known by that descriptor, and the configuration is stored with the decoders the descriptor calls for, whatever else is read before, in between and after |
| `Enumeration.UseIsTold` | src/usb/Device.cpp:232-289 | Over any calls of one device: a configuration is the active one if and only if it was read and is selected, or none is and no other was read; and requests are decoded by it if and only if it was read and is selected, or the one selected was not read and nor was a lower one |
| `Enumeration.BeginsSession` | src/file/InputFile.cpp:63-76 | A device that begins a session, the first at an address or by a read of its descriptor while another device is known, has a session of its own, which all its calls go to |
| `Enumeration.UsbMuxEndpoints` | src/usb/Device.cpp:166-215 | On an Apple device in normal mode an endpoint is routed to the usbmux decoder of an interface if and only if that interface declares it, for every map of alternate settings |
| `WholeStack.FileToMessages` | src/protocol/USBMUXInterfaceExpert.cpp:115-204 | For any script written to a file, identifiers used again or not: if from some point on the device does not re-enumerate and the bulk transfers a decoder is handed, before and after, carry printed usbmux packets, it recovers every message of every generation of a connection |
| `WholeStack.FileReachesDecoder` | src/usb/Device.cpp:25-89 | From the point where the device stops re-enumerating, the file hands each decoder exactly the transfers routed to it by what the device knows at the time, in order |
| `Deliveries.CallsReachDecoder` | src/usb/Device.cpp:25-89 | Over any calls, reads of descriptors and changes of configuration among them, a decoder is handed exactly the bulk and control transfers routed to it by what the device knows at the time, in order |
| `SessionRuns.CallsStayInSession` | src/file/InputFile.cpp:63-103 | Calls none of which re-enumerates the device all go to the session they find |
| `SessionRuns.SessionsAreRuns` | src/file/InputFile.cpp:63-103 | The sessions of an address share its calls between them, in order, and each is the run of its own calls on a new device |
| `CaptureFiles.FileDrivesDevices` | test/CaptureBuilder.h:339-399 | However a script is written to a file, every device in it goes through exactly the transfers completed at its place, in order, each with its own setup and the payload cut to the length asked for, which USBPcap may split into data stages. Transfers may be left open, aborted, or under way when the capture starts: a control completion without its submission is dropped, and a bulk one passed on. Only a completion of another transfer than the one open under its key, or one whose stages make up other data, is ruled out |
| `CaptureFiles.ContainersAgree` | test/CaptureBuilder.h:438-463 | A pcapng file and a pcap file in any byte order and precision deliver the same packets: those written |
| `CaptureFiles.DistinctIdsMatch` | test/CaptureBuilder.h:339-399 | In particular identifiers submitted once, completed or aborted once after that or without it, and staged only in between, give the pairing that correlation needs, however transfers interleave |
| `CaptureLaws.FormatIndependence` | src/file/InputFile.cpp:209-363 | The Darwin 1.0, Darwin 1.1, USBPcap, usbmon and mmapped usbmon layouts of a script drive a device through the same run, at every place that the layouts tell apart from the others |
| `CaptureLaws.DeviceSeesCompletions` | src/file/InputFile.cpp:23-108 | Devices see what is due for the completions at their place and nothing else, over any interleaving of places and transfers |
| `CaptureLaws.PlacesAreApart` | src/file/InputFile.cpp:170-179 | A layout tells a place from all others in a script exactly when no other shares its address and its location, on Darwin, or its address and its bus |
| `CaptureLaws.StagesAreJoined` | src/file/InputFile.cpp:31-35 | Splitting the payload of a USBPcap control transfer over any number of data stages, with any other traffic between them, changes nothing for any device, whatever precedes and follows |
| `CaptureLaws.DataStageIsRead` | src/file/InputFile.cpp:295-297 | A USBPcap data stage appends its payload to its transfer |
| `Records.DevicesAreIsolated` | src/file/InputFile.cpp:170-207 | The handle of a device is the run of its own events, whatever else the capture holds |
| `Records.OrderIsAppearance` | src/file/InputFile.cpp:158-179 | Devices are listed once each, in the order in which packets first name them |
| `Records.TakeTouches` | src/file/InputFile.cpp:188-207 | A packet touches the handle of the device it names and no other, and creates it on first mention only |
| `Records.ItemsAreCounted` | src/file/InputFile.cpp:181-207 | Over every run packets are counted, each unknown link type is noted once, and exactly these are warned of: complaints of the container, packets that cannot be read or lack their setup packet, and the first packet of each unknown link type |
| `FormatLaws.EncodedIsRead` | src/file/InputFile.cpp:209-363 | In each of the five layouts a printed submission or completion of a control, bulk or interrupt transfer, in the usbmon ones an abort, and in USBPcap a data stage, is read back as that event on that device |
| `FormatLaws.DarwinIsDecoded` | src/file/InputFile.cpp:209-257 | Every field of a printed Darwin packet is found by its decoder, in both header versions and with any header length; of the payload as much as is declared and was captured; any other version is refused |
| `FormatLaws.UsbPcapIsDecoded` | src/file/InputFile.cpp:259-318 | Every field of a printed USBPcap packet is found by its decoder, with any header length: the first byte behind the plain header is the stage; of the payload as much as is declared and was captured |
| `FormatLaws.UsbmonIsDecoded` | src/file/InputFile.cpp:320-363 | Every field of a printed usbmon packet is found by its decoder, with and without the mmapped extension and the setup packet, whatever length the transfer has; of the payload as much as is declared and was captured |
| `FormatLaws.RefusedByHeader` | src/file/InputFile.cpp:209-345 | A packet of any bytes is refused if and only if its header is not all there, or, by layout, of no known version or of an impossible length |
| `FormatLaws.DarwinMentions` | src/file/InputFile.cpp:232-257 | A Darwin packet is an event if and only if it is a request or completion of a control, bulk or interrupt transfer and does not lack its setup packet, which alone is warned of |
| `FormatLaws.UsbPcapMentions` | src/file/InputFile.cpp:283-318 | A USBPcap packet is an event if and only if it is of a bulk or interrupt transfer, or one of three stages of a control transfer, with its setup packet; a missing stage or setup packet is warned of; the lowest info bit tells bulk completions |
| `FormatLaws.UsbmonMentions` | src/file/InputFile.cpp:336-363 | A usbmon packet is an event if and only if it is a failure of anything, or a submission or completion of a control, bulk or interrupt transfer with its setup packet, whose lack alone is warned of |
| `InputFile.InputFile.constructor` | src/file/InputFile.h:64-69 | A new input file has no devices and all counters at zero |
| `InputFile.InputFile.HandleFor` | src/file/InputFile.cpp:170-179 | A device gets a handle, and a place in the order, on its first mention only |
| `InputFile.InputFile.Process` | src/file/InputFile.cpp:188-207 | A packet is counted, decoded by its link type, and complained about once per unsupported link type |
| `InputFile.InputFile.ProcessDarwin` | src/file/InputFile.cpp:209-257 | The objects follow the reading of a Darwin packet, and the result tells whether it decoded |
| `InputFile.InputFile.ProcessUsbPcap` | src/file/InputFile.cpp:259-318 | The objects follow the reading of a USBPcap packet, and the result tells whether it decoded |
| `InputFile.InputFile.ProcessUsbmon` | src/file/InputFile.cpp:320-363 | The objects follow the reading of a usbmon packet, and the result tells whether it decoded |
| `InputFile.InputFile.Occur` | src/file/InputFile.cpp:170-179 | An event changes the handle of its device by one step and leaves all other handles as they were |
| `LinkTypes.StepIsListed` | src/file/InputFile.cpp:170-179 | Every listed device keeps a handle with a session |
| `PcapNG.Parse` | src/file/PcapNGInputFile.cpp:17-118 | The walk drives the devices with exactly the packets of the blocks, and reports exactly the parse errors of the first block and of section headers |
| `PcapNG.ProcessBlock` | src/file/PcapNGInputFile.cpp:22-66 | One block is refused, complained about or taken, as its type, lengths and byte order say |
| `PcapNG.ProcessBody` | src/file/PcapNGInputFile.cpp:68-114 | Interface descriptions, enhanced and simple packets deliver what their fields say, or a complaint |
| `PcapNGLaws.TruncationKeepsWholeBlocks` | src/file/PcapNGInputFile.cpp:17-118 | A truncated file delivers exactly the packets of the blocks left whole, even where it ends in a parse error |
| `PcapNGLaws.TruncationIsPrefix` | src/file/PcapNGInputFile.cpp:17-118 | What any truncation of any file delivers, the whole file delivers first |
| `PcapNGLaws.FilesConcatenate` | src/file/PcapNGInputFile.cpp:37-49 | Sections forget the interfaces before them: a file appended to one that ends with a block is read as on its own |
| `PcapNGLaws.RoundTrip` | test/CaptureBuilder.h:403-446 | Any number of printed sections, with options, interfaces, enhanced and simple packets on them, and blocks of other types, is read back packet by packet with their link types; packets of unknown interfaces, and simple ones ahead of any, are complained of |
| `PcapNGLaws.BlockExtends` | src/file/PcapNGInputFile.cpp:22-66 | A block is what it is, whatever follows it |
| `PcapNGLaws.PrintedBlockIsRead` | test/CaptureBuilder.h:403-411 | A printed and padded block is read with its type, body and length |
| `PcapNGLaws.EnhancedPacketIsRead` | src/file/PcapNGInputFile.cpp:79-96 | Whatever its time, length on the bus and options, the captured bytes are delivered with the link type of its interface, without what follows them; one of an unknown interface is complained of |
| `PcapNGLaws.SimplePacketIsRead` | src/file/PcapNGInputFile.cpp:99-109 | A printed and padded simple packet is delivered on the first interface, cut to what that captures unless it captures all; without an interface it is complained of |
| `PcapNGLaws.CutSimpleIsRead` | src/file/PcapNGInputFile.cpp:105-107 | A simple packet of which its block holds less is delivered as far as it is held |
| `PcapNGLaws.CutBodyIsComplained` | src/file/PcapNGInputFile.cpp:69-104 | An interface description, enhanced packet or simple packet cut short is complained of, and delivers and declares nothing |
| `PcapNGLaws.RecordIsRead` | src/file/PcapNGInputFile.cpp:65-116 | Every printed block of a section is read as what it is, whatever its kind |
| `PcapNGLaws.BlockIsPrinted` | src/file/PcapNGInputFile.cpp:22-66 | Exactly the printed blocks are read, on the interfaces of their section: otherwise the walk ends, with an error at the start of the file or at a section header that is cut or in another byte order, and with a complaint elsewhere |
| `Pcap.Parse` | src/file/PcapInputFile.cpp:5-48 | The walk drives the devices with exactly the records of the file, in the byte order of the magic number |
| `PcapLaws.TruncationKeepsWholeRecords` | src/file/PcapInputFile.cpp:31-47 | A truncated file delivers exactly the records left whole |
| `PcapLaws.TruncationIsPrefix` | src/file/PcapInputFile.cpp:5-48 | What any truncation of any file delivers, the whole file delivers first |
| `PcapLaws.RoundTrip` | test/CaptureBuilder.h:448-463 | Printed in either byte order and precision, records are read back in order, whatever their times and lengths on the bus, under the low 28 bits of the link type field; part of a record behind them is complained of |
| `PcapLaws.FailsByHeader` | src/file/PcapInputFile.cpp:6-23 | A file of any bytes fails, and delivers nothing, if and only if its header is not all there or does not start as one of the four kinds |
| `Transfers.DeviceHandle.constructor` | src/file/InputFile.h:19-21 | A handle starts with one fresh session and nothing in flight |
| `Transfers.DeviceHandle.BeginControl` | src/file/InputFile.cpp:23-29 | A control submission replaces what was stored under its key |
| `Transfers.DeviceHandle.AppendControl` | src/file/InputFile.cpp:31-35 | Data is appended to an open transfer and to none otherwise |
| `Transfers.DeviceHandle.EndControl` | src/file/InputFile.cpp:37-61 | A control completion takes its submission and hands on the payload the direction calls for, cut to the length asked for, or counts as unmatched |
| `Transfers.DeviceHandle.DispatchControl` | src/file/InputFile.cpp:63-76 | A read of another device descriptor starts a session, and the last session takes the call |
| `Transfers.DeviceHandle.BeginBulk` | src/file/InputFile.cpp:78-84 | A bulk submission stores OUT data under its own endpoint address |
| `Transfers.DeviceHandle.EndBulk` | src/file/InputFile.cpp:86-103 | A bulk completion is handed on in any case, with OUT data taken from its submission when it carries none |
| `Transfers.DeviceHandle.Abort` | src/file/InputFile.cpp:105-108 | An abort forgets both keys the transfer could be stored under |
| `TransferLaws.RunIsDispatch` | src/file/InputFile.cpp:23-108 | A handle is its open transfers and what the calls it completed make of its sessions |
| `TransferLaws.InflightIsOpen` | src/file/InputFile.cpp:23-108 | On every run the in-flight map holds exactly the transfers begun and not closed since, each with its own submission and the data appended to it |
| `TransferLaws.ControlCompletion` | src/file/InputFile.cpp:37-61 | A control completion is dispatched exactly when its own control submission is open, with that setup, to the endpoint number: IN with the data of the completion, or when that has none what was stored and appended; OUT with what was stored and appended, or when that is empty the data of the completion; either cut to the length asked for |
| `TransferLaws.BulkCompletion` | src/file/InputFile.cpp:86-103 | Bulk completions are always dispatched, to the endpoint number: IN with their own data, OUT with their own or, when they have none, that of the open submission |
| `TransferLaws.NothingElseIsDispatched` | src/file/InputFile.cpp:105-108 | Other events dispatch nothing, and what an abort names is no longer open |
| `TransferLaws.CallsAreCompletions` | src/file/InputFile.cpp:37-108 | Over any interleaving of submissions, data stages, completions and aborts the calls are exactly what is due for the completions, in order: the whole transfer if it is open under the key, and if none is, nothing for a control transfer and what the completion holds for a bulk one |
| `TransferLaws.AppendedInPortions` | src/file/InputFile.cpp:31-35 | A payload may come with its submission or be appended in any portions, with events of other transfers between them |
| `TransferLaws.SessionSafety` | src/file/InputFile.cpp:63-76 | Over every run: all sessions but the last know their device, sessions are only appended, only the last is touched, a known descriptor and stored configurations never change, and later configurations carry the decoders their descriptor calls for |
| `SessionLaws.NewSessionKnowsItsDevice` | src/file/InputFile.cpp:63-69 | A differing descriptor read starts a session that knows another device exactly when the read is one a device accepts |
| `SessionLaws.DispatchKeepsDifference` | src/file/InputFile.cpp:63-76 | A call keeps neighbouring sessions of different devices if and only if it does not give a blank last session the descriptor of the one before |
| `SessionLaws.CallsRepeat` | src/file/InputFile.cpp:63-76 | Over every list of calls, two sessions in a row are of one device if and only if a device was read, then another by a read not taken in, and then the first again with no read taken in between |
| `SessionLaws.SessionsRepeat` | src/file/InputFile.cpp:23-108 | The same over every run of events on an address, by the calls it completes |
| `SessionLaws.SessionsMayRepeat` | src/file/InputFile.cpp:63-69 | An input that fails: a device is read, a read of another is rejected, the first is read again, and two sessions in a row are of it |
| `TransferLaws.KnownDescriptorStays` | src/usb/Device.cpp:104-110 | Only a read that starts a new session could change a known descriptor |
| `Device.Device.ProcessBulkPacketIn` | src/usb/Device.cpp:25-35 | IN data is counted and handed to the decoder of the endpoint with its direction bit |
| `Device.Device.ProcessBulkPacketOut` | src/usb/Device.cpp:37-47 | OUT data is counted and handed to the decoder of the endpoint |
| `Device.Device.ProcessControlPacketIn` | src/usb/Device.cpp:49-66 | Standard reads of descriptors are taken in, class and vendor requests go to a decoder |
| `Device.Device.ProcessControlPacketOut` | src/usb/Device.cpp:68-89 | SET_CONFIGURATION and SET_INTERFACE are followed, class and vendor requests go to a decoder |
| `Device.Device.ProcessDescriptor` | src/usb/Device.cpp:91-164 | Device, configuration, string and BOS descriptors are kept when whole, and a wrong type is an anomaly |
| `Device.Device.ProcessConfiguration` | src/usb/Device.cpp:112-135 | A full set is parsed and stored with its decoders unless its value is known |
| `Device.Device.GetExpertForEndpoint` | src/usb/Device.cpp:247-266 | The nested search finds the decoder of the current setting declaring the endpoint, or else the first decoder of any declaring setting |
| `Device.Device.GetExpertForControl` | src/usb/Device.cpp:268-289 | Interface requests go to the first setting of that interface, others to the first decoder |
| `DeviceLaws.RoutingIndependence` | src/usb/Device.cpp:247-266 | Routing of an endpoint is independent of SET_INTERFACE history if and only if all settings its traffic can be left to share their decoder |
| `DeviceLaws.OneInterfaceIsIndependent` | src/usb/Device.cpp:247-266 | An endpoint that belongs to one interface number is routed independently of SET_INTERFACE history |
| `DeviceLaws.SharedIsIndependent` | src/usb/Device.cpp:247-266 | An endpoint all of whose declaring settings share a decoder is routed independently of SET_INTERFACE history |
| `DeviceLaws.SomeRoutingDepends` | src/usb/Device.cpp:247-266 | A descriptor set that fails it: two interfaces with one endpoint, one of them a DFU interface in its setting 1 |
| `DeviceLaws.AttachedRouting` | src/usb/Device.cpp:166-215 | For every parsed descriptor set as a device stores it, the same if and only if |
| `AttachmentLaws.SessionsAreDue` | src/usb/Device.cpp:112-135 | Over every run, the configurations of a session all carry the decoders its device calls for if and only if each was first read in full after the device descriptor, or gets the same decoders without it |
| `AttachmentLaws.UsbMuxMakesTheDifference` | src/usb/Device.cpp:166-215 | On an Apple device in normal mode knowing the device makes a difference to a configuration if and only if it has an interface whose first setting that calls for a decoder is a usbmux one |
| `AttachmentLaws.RecoveryMakesTheDifference` | src/usb/Device.cpp:166-215 | On an Apple device in recovery mode it makes a difference to every configuration that has an interface |
| `AttachmentLaws.DfuMakesTheDifference` | src/usb/Device.cpp:166-215 | On one in DFU mode it makes none if and only if there are no interfaces, or all are numbered 0 and one of them is a DFU one |
| `AttachmentLaws.OtherVendorsAreIndifferent` | src/usb/Device.cpp:166-215 | On other devices it makes none |
| `AttachmentLaws.StoresFirst` | src/usb/Device.cpp:112-135 | A call stores a configuration exactly when it reads a complete set of a value not known yet |
| `DeviceLaws.RouteIsDeclared` | src/usb/Device.cpp:247-266 | An endpoint goes to the decoder of a setting that declares it, and nowhere when none does |
| `DeviceLaws.EndpointIsRouted` | src/usb/Device.cpp:247-266 | Traffic of an endpoint goes to the decoder of the first setting in force that has it, also if that has none; without such a setting to the first decoder among the settings that have it |
| `DeviceLaws.RequestIsRouted` | src/usb/Device.cpp:268-289 | A request goes to the decoder of the first setting of the interface it addresses, also if that has none; a request to anything else to the first decoder there is |
| `DeviceAccounts.CallsAreCounted` | src/usb/Device.cpp:25-73 | On every run each transfer is counted once, with the bytes it carries, control transfers apart from the others |
| `DeviceAccounts.TextIsLastTold` | src/usb/Device.cpp:137-144 | On every run a text is known exactly when a whole string descriptor was read under its index, other than 0, and it is the UTF-8 form of the last one, without header and without what follows |
| `DeviceAccounts.CapabilitiesAreKept` | src/usb/Device.cpp:146-159 | On every run exactly the whole object stores read are kept, in order, each cut to the length it declares |
| `DeviceAccounts.OddRepliesAreNoted` | src/usb/Device.cpp:98-124 | On every run exactly these replies are noted: descriptors of another type than asked for, and complete configuration sets not made of whole descriptors |
| `DeviceAccounts.SettingIsLastSelected` | src/usb/Device.cpp:76-81 | On every run an interface has the alternate setting selected for it last, and none when the configuration was set since |
| `DeviceLaws.ApplyStep` | src/usb/Device.cpp:112-135 | Every call keeps the store consistent: each key is its stored value, configurations and decoders are never replaced, and new ones carry the decoders the known descriptor calls for |
| `DeviceLaws.AttachIsFunction` | src/usb/Device.cpp:166-215 | The decoders of a stored configuration can be recomputed from what was parsed |
| `Configuration.ParseConfiguration` | src/usb/Device.cpp:300-355 | The pointer walk computes the functional parse, and its result tells malformed sets |
| `Configuration.AttachExperts` | src/usb/Device.cpp:166-215 | The nested loop gives every setting the decoder of the first setting of its interface that calls for one, or the device-wide one |
| `Configuration.ParsedIsBare` | src/usb/Device.cpp:318-325 | Parsing attaches nothing |
| `ConfigurationLaws.AlternatesShareTheirExpert` | src/usb/Device.cpp:166-215 | All alternate settings of an interface share one decoder, present exactly when one of them qualifies or the device as a whole has one |
| `ConfigurationLaws.DifferentInterfacesDiffer` | src/usb/Device.cpp:166-215 | Different interfaces never share a decoder unless the device as a whole has one |
| `ConfigurationLaws.TruncationIsPrefix` | src/usb/Device.cpp:300-355 | Every truncation yields the descriptors wholly inside it: a prefix of the interfaces and of the endpoints of each |
| `ConfigurationLaws.WholesOfTruncation` | src/usb/Device.cpp:304-310 | The descriptors of a truncated set are exactly those that end by the cut |
| `ConfigurationLaws.PrintedIsParsed` | test/CaptureBuilder.h:132-203 | A printed set, with any class specific descriptors in it, is read back in full: all it says of itself, every setting and endpoint in order (section 9.6 of the USB 2.0 specification), and the DFU functional descriptors of its DFU interfaces, later bytes laid over earlier ones |
| `ConfigurationLaws.WholeIsAccepted` | src/usb/Device.cpp:300-355 | A set of any bytes is accepted if and only if it is made of descriptors as long as they declare and long enough for their type |
| `ConfigurationLaws.LooseIsSkipped` | src/usb/Device.cpp:300-355 | Ahead of the first interface nothing but the descriptor of the configuration itself changes what is parsed |
| `ConfigurationLaws.AttachedIsDue` | src/usb/Device.cpp:166-215 | Which decoder a setting has, by the numbers assigned: that of the whole device for Apple products in DFU and recovery mode; otherwise the one that the first setting of its interface to call for any calls for, usbmux on Apple devices only, with the transfer size announced for DFU |
| `Utf16.Utf16leToUtf8` | src/demuxusb.hpp:75-110 | The loop prints the code points of the units, odd last byte ignored |
| `Utf16Laws.OutputIsUtf8` | src/demuxusb.hpp:75-110 | For every input the output is well-formed UTF-8 (section 3 of RFC 3629) of at most three bytes a unit, and decodes to the code points |
| `Utf16Laws.TextIsKept` | src/demuxusb.hpp:75-110 | Well-formed UTF-16 (section 2 of RFC 2781) keeps its code points |
| `Utf16Laws.UnitsBecomeCodePoints` | src/demuxusb.hpp:81-91 | Each unpaired surrogate becomes exactly one replacement character, each pair one character, every other unit itself |
| `UsbMuxExpert.USBMUXInterfaceExpert.constructor` | src/protocol/USBMUXInterfaceExpert.h:19-21 | A new demultiplexer has empty buffers and no streams |
| `UsbMuxExpert.USBMUXInterfaceExpert.ProcessBulkOut` | src/protocol/USBMUXInterfaceExpert.cpp:105-108 | An OUT transfer changes the whole demultiplexer as the reassembly and the table say |
| `UsbMuxExpert.USBMUXInterfaceExpert.ProcessBulkIn` | src/protocol/USBMUXInterfaceExpert.cpp:110-113 | An IN transfer changes the whole demultiplexer as the reassembly and the table say |
| `UsbMuxExpert.USBMUXInterfaceExpert.ProcessControl` | src/protocol/InterfaceExpert.h:25-33 | A control transfer is counted and changes nothing else |
| `UsbMuxExpert.USBMUXInterfaceExpert.FeedDirection` | src/protocol/USBMUXInterfaceExpert.cpp:115-148 | The loop takes every whole packet, keeps the rest, and drops everything once framing is lost |
| `UsbMuxExpert.USBMUXInterfaceExpert.ProcessPacket` | src/protocol/USBMUXInterfaceExpert.cpp:150-163 | Version packets set the version, TCP packets go to their stream, others are ignored |
| `UsbMuxExpert.USBMUXInterfaceExpert.BeginStream` | src/protocol/USBMUXInterfaceExpert.cpp:73-87 | The next generation of a connection is a fresh stream under its own key, named by the service known for its port |
| `UsbMuxExpert.USBMUXInterfaceExpert.GetStreamId` | src/protocol/USBMUXInterfaceExpert.cpp:89-99 | The latest generation, begun when there is none |
| `UsbMuxExpert.USBMUXInterfaceExpert.StreamFor` | src/protocol/USBMUXInterfaceExpert.cpp:101-103 | The stream is there, so looking it up inserts nothing |
| `UsbMuxExpert.USBMUXInterfaceExpert.ProcessTCP` | src/protocol/USBMUXInterfaceExpert.cpp:165-204 | A segment opens, feeds, learns from and closes exactly its own stream |
| `UsbMuxExpert.USBMUXInterfaceExpert.LearnServices` | src/protocol/USBMUXInterfaceExpert.cpp:206-221 | New inbound lockdown messages name device ports |
| `UsbMuxFraming.ReassemblyResumes` | src/protocol/USBMUXInterfaceExpert.cpp:119-147 | Parsing resumes where it stopped; what follows lost framing in the same call is thrown away |
| `UsbMuxFraming.ChunkInvariance` | src/protocol/USBMUXInterfaceExpert.cpp:115-148 | The packets, leftover and resync count do not depend on how the bytes were cut into transfers if and only if framing is kept or lost on a header that ends the stream |
| `UsbMuxFraming.CutsDoNotMatter` | src/protocol/USBMUXInterfaceExpert.cpp:115-148 | The same condition by the bytes alone: packets as long as their plausible headers say, one after the other, then too little for a header, the front of a packet, or a bad header and nothing behind it |
| `UsbMuxFraming.LossIsCutDependent` | src/protocol/USBMUXInterfaceExpert.cpp:124-129 | After any other loss there is a cut that changes the outcome |
| `UsbMuxFraming.LossIsPossible` | src/protocol/USBMUXInterfaceExpert.cpp:124-129 | An input that fails it: nine bytes, a bad header and one byte |
| `UsbMuxFraming.LossIsCounted` | src/protocol/USBMUXInterfaceExpert.cpp:115-148 | Behind any number of packets a bad header costs one resync and all that came with it, and what is no whole packet is waited on |
| `UsbMuxFraming.ReadV2Packet` | test/CaptureBuilder.h:206-219 | A v2 packet is read back whole, whatever follows |
| `UsbMuxFraming.ReadV1Packet` | src/protocol/USBMUXInterfaceExpert.cpp:135-141 | A v1 packet is read back if and only if its payload does not pose as the rest of a v2 header |
| `UsbMuxFraming.SomePacketIsMisread` | src/protocol/USBMUXInterfaceExpert.cpp:135-137 | A v1 packet that is not read back: its payload starts with the magic of inbound packets |
| `UsbMuxFraming.DiscardsAHeader` | src/protocol/USBMUXInterfaceExpert.cpp:124-129 | Lost framing discards a bad header and leaves nothing, otherwise the leftover is stable |
| `UsbMux.StreamIdInjective` | src/protocol/USBMUXInterfaceExpert.h:13-14 | The packing of ports and generation is injective |
| `UsbMux.StreamIdTells` | src/protocol/USBMUXInterfaceExpert.h:13-14 | Host port, device port and generation are read off an identifier at bits 48, 32 and 0 |
| `UsbMux.BeginIsLinked` | src/protocol/USBMUXInterfaceExpert.cpp:73-87 | Every connection in the index keeps its latest stream with matching ports |
| `UsbMux.OpenedIsLinked` | src/protocol/USBMUXInterfaceExpert.cpp:89-103 | Opening the stream of a segment keeps the index and the streams linked |
| `UsbMuxHistory.TableIsHistory` | src/protocol/USBMUXInterfaceExpert.cpp:73-103 | On every run below 2^32 generations each stream is what replaying its own segments makes of a new stream named by what was known at its birth |
| `UsbMuxLaws.HistoryIsExact` | src/protocol/USBMUXInterfaceExpert.cpp:73-103 | On every run the streams of every connection are numbered from one to its index, and no others exist, if and only if no connection has begun 2^32 generations |
| `UsbMuxLaws.BeginKeepsExact` | src/protocol/USBMUXInterfaceExpert.cpp:74-76 | Numbering survives a new stream if and only if the 32-bit generation counter does not wrap |
| `UsbMuxLaws.SynsAreCounted` | src/protocol/USBMUXInterfaceExpert.cpp:179-183 | Each bare SYN of a connection begins a generation |
| `UsbMuxLaws.CounterWraps` | src/protocol/USBMUXInterfaceExpert.cpp:74-76 | An input that fails: 2^32 bare SYNs of one connection break the numbering, one less does not |
| `UsbMuxLaws.StreamsEvolve` | src/protocol/USBMUXInterfaceExpert.cpp:165-204 | Streams keep ports and name, stay closed, only gain, and are frozen once a later generation begins |
| `UsbMuxLaws.ClosedByItsEnd` | src/protocol/USBMUXInterfaceExpert.cpp:188-203 | On every run below 2^32 generations the stream of a generation is closed if and only if one of its segments, in either direction, has its FIN or its RST flag set |
| `UsbMuxLaws.ReplayDirection` | src/protocol/USBMUXInterfaceExpert.cpp:188-202 | Each direction of a stream holds exactly what framing its own segments yields |
| `UsbMuxNames.TouchedStep` | src/protocol/USBMUXInterfaceExpert.cpp:179-203 | A segment adds to one stream, its own, which is new and empty or was there before |
| `UsbMuxNames.BytesAreConserved` | src/protocol/USBMUXInterfaceExpert.cpp:165-204 | The bytes counted by all streams are those carried by all segments |
| `UsbMuxNames.NamesFollowLog` | src/protocol/USBMUXInterfaceExpert.cpp:206-221 | The names known are those the lockdown messages logged so far give |
| `UsbMuxNames.LogIsComplete` | src/protocol/USBMUXInterfaceExpert.cpp:206-221 | Every message of a lockdown stream is inspected exactly once, in the order decoded |
| `UsbMuxNames.LearnIsLast` | src/protocol/USBMUXInterfaceExpert.cpp:213-219 | A port is named by the service of the last message of the device that decodes to that port and a service that is not empty, and by none if there is none; messages of the host name nothing |
| `UsbMuxNames.ServiceNamesFollowHistory` | src/protocol/USBMUXInterfaceExpert.cpp:78-83 | A stream is named, for good: lockdownd on port 62078, otherwise by the last message of the device on a lockdown stream before its birth that names its port, or not at all |
| `UsbMuxWire.TransfersAreReassembled` | src/protocol/USBMUXInterfaceExpert.cpp:105-148 | Each direction is reassembled from its own transfers, and the table sees the packets in the order transfers complete them |
| `UsbMuxWire.TransfersAreCounted` | src/protocol/InterfaceExpert.h:35-43 | Every transfer is counted, with its bytes |
| `UsbMuxWire.VersionIsLast` | src/protocol/USBMUXInterfaceExpert.cpp:150-157 | The version known is the first payload word of the last version packet that has one |
| `UsbMuxWire.PrintedIsFed` | test/CaptureBuilder.h:206-219 | Printed packets of either version survive every cut into transfers |
| `UsbMuxWire.WireIsDemultiplexed` | src/protocol/USBMUXInterfaceExpert.cpp:115-204 | However the wire is cut, nothing is lost, left over or reordered within a direction, without resync |
| `UsbMuxEndToEnd.GenerationDelivered` | src/protocol/USBMUXInterfaceExpert.cpp:165-204 | A generation whose segments carry length prefixed messages ends with exactly those messages |
| `UsbMuxEndToEnd.ConnectionDelivered` | src/protocol/USBMUXInterfaceExpert.cpp:115-204 | Any generation of a connection ends with exactly the messages that its segments printed onto the wire carry, in both directions, whatever else is on the wire, in packets of either version, and however it is cut and interleaved |
| `UsbMuxEndToEnd.UnopenedIsDelivered` | src/protocol/USBMUXInterfaceExpert.cpp:89-99 | The same of a connection whose opening the capture missed, in whatever order the two directions complete |
| `UsbMuxWire.CompletedInOrder` | src/protocol/USBMUXInterfaceExpert.cpp:105-148 | When transfers complete packets in the order listed, exactly the packets listed are applied, in that order |
| `UsbMuxEndToEnd.ShortIsCountable` | src/protocol/USBMUXInterfaceExpert.cpp:73-76 | A capture of fewer than 2^32 segments cannot use up the generation numbers |
| `UsbMuxEndToEnd.OpenedOnce` | src/protocol/USBMUXInterfaceExpert.cpp:179-186 | A connection has one generation when only its very first segment may be a bare SYN |
| `UsbMuxWire.ReadSegment` | test/CaptureBuilder.h:229-243 | A printed TCP segment, with any options and any data offset, is read back with ports, flags and data |
| `UsbMuxWire.SegmentsAreRead` | src/protocol/USBMUXInterfaceExpert.cpp:165-177 | The segments read from the packets of a wire are exactly those printed onto it, other packets yielding none |
| `UsbMuxWire.OneByOneIsCarried` | src/protocol/USBMUXInterfaceExpert.cpp:105-148 | Packets sent in a transfer each are carried whole, and complete in their order |
| `MuxStream.MuxStream.constructor` | src/protocol/MuxStream.h:54-54 | A new stream has fresh directions and no messages |
| `MuxStream.MuxStream.ReceiveBytes` | src/protocol/MuxStream.cpp:99-101 | Device data changes the IN direction and appends its messages |
| `MuxStream.MuxStream.SendBytes` | src/protocol/MuxStream.cpp:103-105 | Host data changes the OUT direction and appends its messages |
| `MuxStream.MuxStream.Consume` | src/protocol/MuxStream.cpp:107-115 | The direction becomes what absorbing the data makes of it |
| `MuxStream.MuxStream.Drain` | src/protocol/MuxStream.cpp:117-163 | The loop takes every whole message and stops on a verdict or for more data |
| `MuxStreamLaws.ChunkInvariance` | src/protocol/MuxStream.cpp:107-163 | Messages, encoding, leftover and byte count do not depend on how a stream was cut if and only if its first message does not end short of a signature that later bytes complete |
| `MuxStreamLaws.OverrunIsCutDependent` | src/protocol/MuxStream.cpp:135-148 | Otherwise cutting after the first message makes the stream raw |
| `MuxStreamLaws.OverrunIsPossible` | src/protocol/MuxStream.cpp:135-148 | An input that fails it: with a length of three in front of a binary plist signature the outcome depends on the cut |
| `MuxStreamLaws.AbsorbAllIsAbsorb` | src/protocol/MuxStream.cpp:107-163 | From any settled state receiving in pieces is receiving at once; raw and TLS absorb everything |
| `MuxStreamLaws.LengthIsNotTLS` | src/protocol/MuxStream.cpp:35-39 | No plausible big endian length reads as a TLS record header |
| `MuxStreamLaws.RoundTrip` | test/CaptureBuilder.h:250-255 | A list of payloads of 1 byte to 64 MiB is recovered under every cut, each marked as binary or XML by its first bytes, if and only if the first is a property list by its first bytes |
| `MuxStreamLaws.UpgradeToTLS` | src/protocol/MuxStream.cpp:119-123 | A session upgraded to TLS, by a handshake or application data record of version 3.0 to 3.4, after messages or from its first byte on, keeps its messages and reports TLS from there on |
| `MuxStreamLaws.AfterMessages` | src/protocol/MuxStream.cpp:117-163 | Behind messages the verdict on four or more bytes is TLS if and only if they are such a record, and raw if and only if they are none and their length is zero or above 64 MiB; otherwise the next message is waited for or taken |
| `MuxStreamLaws.FirstVerdict` | src/protocol/MuxStream.cpp:117-163 | What a direction starts with, arriving at once, decides its encoding and leftover: too little to tell, a TLS record, a length that is none, the front of what may be a property list, something else, the front of one, or a whole one |
| `MuxStreamLaws.FramingConserves` | src/protocol/MuxStream.cpp:117-163 | Messages and leftover re-print to the bytes that arrived; only a raw or TLS verdict discards some |
| `Dfu.DFUInterfaceExpert.SetTransferSize` | src/protocol/DFUInterfaceExpert.h:37-37 | The announced transfer size is taken over, nothing else changes |
| `Dfu.DFUInterfaceExpert.ProcessControlOut` | src/protocol/DFUInterfaceExpert.cpp:42-88 | Class downloads, aborts and oddities change images, counters and anomalies as the protocol step says |
| `Dfu.DFUInterfaceExpert.ProcessControlIn` | src/protocol/DFUInterfaceExpert.cpp:90-115 | Class reports set the state and status, uploads are counted |
| `Dfu.DFUInterfaceExpert.ProcessBulk` | src/protocol/InterfaceExpert.h:35-43 | A bulk transfer is counted and changes nothing else |
| `Dfu.DFUInterfaceExpert.GetImages` | src/protocol/DFUInterfaceExpert.cpp:117-123 | The finished images and the one in flight, unless that is empty |
| `Dfu.ImagesAreSegments` | src/protocol/DFUInterfaceExpert.cpp:58-84 | On every run the images are the downloaded data cut at empty downloads and aborts, without the empty pieces |
| `Dfu.ImagesConserveData` | src/protocol/DFUInterfaceExpert.cpp:58-84 | Images and the one in flight concatenate to all data downloaded, and no finished image is empty |
| `Dfu.StateIsLastReport` | src/protocol/DFUInterfaceExpert.cpp:96-108 | The state known is the one last reported long enough |
| `Dfu.StatusIsLastReport` | src/protocol/DFUInterfaceExpert.cpp:96-103 | The status known is the one last reported in at least five bytes |
| `Dfu.RequestsAreCounted` | src/protocol/DFUInterfaceExpert.cpp:42-46 | On every run uploaded bytes, class requests of each number and all transfers are counted |
| `Dfu.OdditiesAreNoted` | src/protocol/DFUInterfaceExpert.cpp:42-115 | On every run exactly what is out of line is noted, in order: OUT data of another length than announced, blocks above the transfer size, aborts that cut off an image, with its size, and requests that the direction has no use for |
| `Recovery.RecoveryInterfaceExpert.ProcessControlOut` | src/protocol/RecoveryInterfaceExpert.cpp:27-37 | Commands and announcements are appended as payloads |
| `Recovery.RecoveryInterfaceExpert.ProcessControlIn` | src/protocol/RecoveryInterfaceExpert.cpp:39-45 | Responses are appended as payloads |
| `Recovery.RecoveryInterfaceExpert.CurrentUpload` | src/protocol/RecoveryInterfaceExpert.cpp:47-61 | The reverse search finds the last upload; the branch behind it is never reached |
| `Recovery.RecoveryInterfaceExpert.ProcessBulkOut` | src/protocol/RecoveryInterfaceExpert.cpp:63-69 | Data goes to the last upload, opened when nothing announced it |
| `Recovery.RecoveryInterfaceExpert.ProcessBulkIn` | src/protocol/RecoveryInterfaceExpert.cpp:71-74 | The console is appended to |
| `Recovery.StepIsSound` | src/protocol/RecoveryInterfaceExpert.cpp:27-69 | An upload is open if and only if there is one |
| `Recovery.UploadsAreFiles` | src/protocol/RecoveryInterfaceExpert.cpp:27-69 | On every run the uploads are the bulk OUT data cut at the announcements, data ahead of the first being an upload of its own |
| `Recovery.UploadsConserveData` | src/protocol/RecoveryInterfaceExpert.cpp:63-69 | Uploads concatenate to all bulk OUT data |
| `Recovery.DialogueIsSaid` | src/protocol/RecoveryInterfaceExpert.cpp:27-45 | Commands and responses are kept in the order exchanged, whatever is uploaded between them |
| `Recovery.PayloadsAreOutlined` | src/protocol/RecoveryInterfaceExpert.cpp:27-69 | On every run the payloads are the commands, responses and uploads in the order exchanged, data that no announcement precedes opening an upload of its own |
| `Recovery.CString` | src/protocol/RecoveryInterfaceExpert.cpp:7-12 | Text is the longest front of the data without a NUL |
| `Recovery.ConsoleIsWritten` | src/protocol/RecoveryInterfaceExpert.cpp:71-74 | On every run the console is all bulk IN data in order, and every transfer is counted |

## Left out

- Counters of packets, bytes, warnings and requests are natural numbers; these counters wrap at 32 or 64 bits in the
  program. The generation counter of the demultiplexer does wrap.
- libplist is a function from a message's direction and bytes to an optional service and port; XML output and
  summaries are not modelled.
- The nested `Direction` structures of a stream and of the demultiplexer are values that a method takes and hands
  back, not objects updated through a reference.
- A device names its decoders by kind, configuration, interface and transfer size, and logs what it hands to each,
  instead of calling decoder objects. `WholeStack` and `DeviceCaptures` run the decoders on that log.
- DeviceCaptures.ScriptToMessages: no endpoint of the usbmux interface belongs to another interface, and the packets are
  listed in the order in which transfers complete them.
- CaptureLaws.FormatIndependence: Darwin knows a place by location and address, the other layouts by bus and address, so
  places that share these are one device, and the places asked about must be told apart by the layout.
- InputFile.InputFile.Process: the text of warnings and the limit of 100 kept ones are not modelled; warnings are
  counted.
- The text of DFU anomalies, which are tagged values.
- Device modes and product names.
- String extraction for display, console formatting, artifacts and all `toString` and `details` output.
- Isochronous transfers.
- Opening and mapping files, choosing the reader by magic number, the command line, and writing artifacts.
