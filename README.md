# Telemetry firmware: two-wire bus master, AHT10 adapter and RFM95 LoRa driver

This project models the transmit-side telemetry path of a bare-metal
firmware in Dafny and proves properties of that model.

- **The bit-banged two-wire (I2C) master** of `firmware/main.c`:
  - the line driver packs SCL, OE and SDA into one write register;
  - START and STOP framing, bit and byte transfer with ACK/NACK;
  - multi-byte write and read transactions that abort with a STOP;
  - the address scan.
- **The AHT10 adapter** built on that master:
  - the trigger-and-read sequence;
  - decoding of the 6-byte response into humidity and temperature;
  - the fixed-point split that `show_aht10` prints.
- **The SX127x/RFM95 driver** of `hardware/firmware/lora_RFM95.c`:
  - register reads and writes framed by chip select;
  - the operating mode;
  - `lora_init` with its identity check and frequency synthesiser word;
  - `lora_send_bytes` with its length check, FIFO load, switch to TX and bounded poll of TxDone.

Both engines work by successive writes to hardware registers. Their state is the trace of what they did.

- **The two-wire master** (module `I2cBus`, class `Bus`):
  - The field `ops` records every line-driver call in order: release SDA, drive SDA low, set SCL, sample SDA.
  - The devices on the bus are an oracle `peer`. It gives the SDA level sampled after any history of calls.
  - Each operation is specified by a pure function. The function builds the bus events of the operation: START, STOP, a byte sent with the ACK bit read after it, or a byte received with the ACK/NACK sent after it.
  - The methods are proved to append exactly the calls of those events.
  - Lemmas (module `I2cTxn`, `Aht10`) state what the events are.
- **The radio driver** (module `Rfm95`, class `Radio`):
  - The field `spi` records the SPI link: chip select, byte exchanges, chip release.
  - The radio is an oracle `chip`. It gives the MISO byte of an exchange from the history and the MOSI byte.
  - `lora_init` and `lora_send_bytes` are specified by pure functions. Each computes the chip-select frames of the operation and whether it succeeds.
  - The current operating mode is the last RegOpMode write among those frames (`LastMode`).

Module layout:

| module | contents |
|---|---|
| `Bits` | bytes and bits, MSB-first bit lists and their values |
| `Logs` | snoc lists of recorded calls |
| `I2cLine` | register packing, line-driver calls, and the call sequences of START, STOP and bit transfer |
| `I2cLevels` | wire levels under the driver as written and under the corrected driver |
| `I2cBus` | bus events, transaction specifications, and the `Bus` class |
| `I2cTxn` | properties of write, read and scan transactions |
| `Aht10` | the sensor sequence, decoding and the display split |
| `Rfm95` | SPI frames, the init and send specifications, and the `Radio` class |

### Where the code and its description differ

- **`i2c_write_byte`** has no active definition. It is declared at `firmware/main.c:39`, and its body exists only as the commented-out text at lines 194-202. The description treats it as a working function. The model follows the description: `Bus.WriteByte` models the commented-out text.
- **`i2c_write_bit`** is defined twice. The model follows the first definition (lines 160-176) in `Bus.WriteBit`.
- **`aht10_trigger_and_read`** is active only as a stub (lines 293-311): START, the address byte, STOP. The commented-out body at lines 271-291 is the full trigger and read that the description names. The model follows the description: `Aht10.TriggerAndRead` models the full body, and `Aht10.Get` calls it.
- **The line driver** (lines 89-97) rewrites all three register fields on every call:
  - as a result it never produces a START or STOP condition;
  - the peer latches every master bit as 1.
  - The description of the bus says START, STOP and clocked bits work.
  - The model follows the code as written (module `I2cLevels`, the `AsWritten` lemmas) and adds the evidently intended driver beside it (the `Corrected` lemmas). See "## Findings".

## Model

| member | source | states |
|---|---|---|
| I2cLine.Pack | firmware/main.c:74-80 | the register value is below 8, and SCL, OE and SDA can each be read back from bits 0, 1 and 2 after masking to one bit |
| I2cLine.PackInjective | firmware/main.c:74-80 | distinct one-bit line levels give distinct register values |
| I2cLine.DriverValue | firmware/main.c:87-97 | releasing SDA writes OE=0; driving SDA low writes OE=1 and SDA=0; setting SCL writes that level with OE=0; SDA is always written 0 |
| I2cLine.RegisterWritesFit | firmware/main.c:74-97 | every register value any call sequence writes fits the three register bits |
| I2cLine.OnItems | firmware/main.c:134-192 | START, STOP, a bit write and a bit read each append exactly their line calls to the history, in source order |
| I2cLine.ByteOpsOrder | firmware/main.c:194-202 | a byte write is 24 calls; call group k sets SDA from bit 7-k and then pulses SCL, so the bits go MSB first |
| I2cLine.SamplesOfReads | firmware/main.c:178-192 | a run of bit reads samples SDA exactly once per bit, in order, and returns the sampled levels |
| I2cLevels.AsWrittenIsRegister | firmware/main.c:89-97 | the as-written line levels are exactly the register values the driver stores |
| I2cLevels.AsWrittenSclHighReleases | firmware/main.c:89-97 | under the driver as written, every write that raises SCL also releases SDA, whatever calls precede it |
| I2cLevels.AsWrittenNeverFrames | firmware/main.c:89-97 | no call sequence under the driver as written ever shows a START or a STOP condition |
| I2cLevels.AsWrittenLatchesOnes | firmware/main.c:89-97 | under the driver as written, the peer latches 1 for every clock pulse |
| I2cLevels.AsWrittenByteArrivesAsFF | firmware/main.c:194-202 | under the driver as written, every byte sent, 0x70 included, reaches the peer as the eight bits of 0xFF |
| I2cLevels.CorrectedStart | firmware/main.c:134-147 | with a driver that keeps the other line's level, START drops SDA while SCL is high and ends with SCL low and SDA held low |
| I2cLevels.CorrectedStop | firmware/main.c:149-158 | with that driver and SCL low, STOP raises SDA while SCL is high and leaves the bus idle (SCL high, SDA released) |
| I2cLevels.CorrectedBit | firmware/main.c:160-176 | with that driver and SCL low, a bit write makes the peer latch exactly that bit and leaves SCL low |
| I2cLevels.CorrectedBits | firmware/main.c:160-176 | with that driver, a run of bit writes makes the peer latch exactly those bits |
| I2cLevels.CorrectedByteAfterStart | firmware/main.c:194-202 | with that driver, after START the peer latches the byte's bits MSB first, and their value is the byte |
| I2cBus.AddrByte | firmware/main.c:239 | the address byte carries the 7-bit address in bits 7..1 and the direction in bit 0 |
| I2cBus.TxEvent | firmware/main.c:194-202 | sending a byte gives a transmit event that carries that byte |
| I2cBus.ReadValue | firmware/main.c:221-231 | the value formed by k bits read is below 2^k |
| I2cBus.ReadByteStep | firmware/main.c:224-227 | when bit i is or-ed in at place i, the accumulator equals the value of the bits read so far shifted into place, and the trace gains exactly one bit read |
| I2cBus.ReadValueSamples | firmware/main.c:221-231 | the byte returned is the number whose binary digits, most significant first, are the eight levels sampled (the sum of b_i << i), and the trace records exactly those samples |
| I2cBus.WriteTxn | firmware/main.c:236-251 | a write transaction always ends with STOP |
| I2cBus.ReadTxn | firmware/main.c:253-266 | a read transaction always ends with STOP |
| I2cBus.ScanTxs | firmware/main.c:99-119 | every address the scan reports lies in 0x03..0x77 |
| I2cBus.Bus.ReleaseSda | firmware/main.c:90 | the call is recorded as an SDA release |
| I2cBus.Bus.DriveSdaLow | firmware/main.c:89 | the call is recorded as SDA driven low |
| I2cBus.Bus.SetScl | firmware/main.c:91-97 | any non-zero level raises SCL, zero lowers it |
| I2cBus.Bus.ReadSda | firmware/main.c:82-85 | returns the level the peer presents after the history, and records the sample |
| I2cBus.Bus.Start | firmware/main.c:134-147 | appends release SDA, SCL high, SDA low, SCL low |
| I2cBus.Bus.Stop | firmware/main.c:149-158 | appends SDA low, SCL high, release SDA |
| I2cBus.Bus.WriteBit | firmware/main.c:160-176 | any non-zero argument is sent as 1, zero as 0, with one clock pulse |
| I2cBus.Bus.ReadBit | firmware/main.c:178-192 | releases SDA, raises SCL, returns the peer's level at that point, lowers SCL |
| I2cBus.Bus.WriteByte | firmware/main.c:194-202 | sends the eight bits MSB first, then reads exactly one ACK bit; returns 0 iff that bit is 0, else -1 |
| I2cBus.Bus.ReadByte | firmware/main.c:221-231 | returns the byte formed by the eight sampled bits MSB first, then sends 0 if an ACK was asked for and 1 otherwise |
| I2cBus.Bus.Address | firmware/main.c:238-239 | START and the address byte with the direction bit; 0 iff it was acknowledged |
| I2cBus.Bus.WriteBytes | firmware/main.c:236-251 | puts the write transaction on the bus; returns 0 iff every byte sent was acknowledged, else -1 |
| I2cBus.Bus.ReadBytes | firmware/main.c:253-266 | puts the read transaction on the bus; on 0, buf[0..len) holds the received bytes in order; on -1, buf is unchanged; buf beyond len is never touched |
| I2cBus.Bus.ProbeAddress | firmware/main.c:105-107 | one probe: START, address byte with the write bit, STOP; 0 iff acknowledged |
| I2cBus.Bus.Scan | firmware/main.c:99-119 | probes addresses 0x03..0x77; returns the acknowledging addresses in probe order and their count |
| I2cTxn.WriteFromShape | firmware/main.c:243-250 | from data byte i on, the bytes are sent in order; all but the last sent are acknowledged; a refused byte is followed only by STOP |
| I2cTxn.WriteTxnShape | firmware/main.c:236-251 | START, address (addr7 << 1) \| 0, the data bytes in order up to and including the first refused byte, then exactly one STOP; success iff the last byte sent was acknowledged, and then all bytes were sent |
| I2cTxn.WriteAddrNack | firmware/main.c:239-242 | a refused address byte gives START, address, STOP, and no data byte is sent; the result is failure |
| I2cTxn.ReadFromShape | firmware/main.c:260-265 | from byte i of len on, exactly len - i bytes are received, each acknowledged iff it is not the last, then STOP |
| I2cTxn.ReadTxnShape | firmware/main.c:253-266 | address (addr7 << 1) \| 1; if refused, STOP and no data reads; otherwise exactly len received bytes, ACK iff i + 1 < len, then one STOP; success iff the address was acknowledged; the received values are those bytes in order |
| I2cTxn.ScanFromShape | firmware/main.c:104-112 | from address addr on, one probe per address in increasing order, each with the write-direction bit |
| I2cTxn.RespondersItems | firmware/main.c:108-111 | an address is reported iff an acknowledged probe carried it |
| I2cTxn.ScanShape | firmware/main.c:99-119 | the scan probes each of 0x03..0x77 exactly once in increasing order, and reports an address iff it is in that range and its probe was acknowledged |
| I2cTxn.ProbesFramed | firmware/main.c:104-107 | each probe is framed on its own: START, its address byte, STOP |
| Aht10.RawHumidity | firmware/main.c:316-317 | the humidity field is below 2^20 |
| Aht10.RawTemperature | firmware/main.c:319 | the temperature field is below 2^20 |
| Aht10.Encode | firmware/main.c:315-319 | a response carrying two fields is six bytes long and keeps the status byte |
| Aht10.RawOfEncode | firmware/main.c:315-319 | extraction recovers both 20-bit fields from their encoding |
| Aht10.EncodeOfRaw | firmware/main.c:315-319 | every 6-byte response is the encoding of its status byte and its two extracted fields, so humidity depends only on bytes 1..3 and temperature only on bytes 3..5 |
| Aht10.Parse | firmware/main.c:313-327 | humidity lies in [0, 100) and temperature in [-50, 150) |
| Aht10.ParseEncode | firmware/main.c:321-322 | humidity is raw_h * 100 / 2^20 and temperature raw_t * 200 / 2^20 - 50, whatever the status byte |
| Aht10.TriggerShape | firmware/main.c:273-279 | the trigger writes 0x70, then 0xAC, 0x33, 0x00 in order; every byte before the last one sent was acknowledged, and a transaction cut short ends on a refused byte; success iff all four were acknowledged |
| Aht10.ResponseShape | firmware/main.c:284-288 | the read uses 0x71; if acknowledged, six bytes are received, the first five acknowledged and the sixth not, and delivered in order; if refused, nothing is received |
| Aht10.TriggerAndRead | firmware/main.c:271-291 | a failed trigger returns -1, reads nothing and leaves buf alone; otherwise the 6-byte read follows; the result is 0 iff the read was acknowledged, and then buf holds the six received bytes |
| Aht10.Get | firmware/main.c:329-336 | a reading is decoded iff trigger and read both succeeded, and the result is 0 exactly then; when the trigger fails nothing is parsed and no read is made |
| Aht10.Trunc | firmware/main.c:356 | the C cast to int truncates toward zero |
| Aht10.Centi | firmware/main.c:356 | t100 is within half a hundredth of t * 100; it is not negative for t >= 0 and not positive for t < 0 |
| Aht10.CentiUp | firmware/main.c:357 | for h >= 0, h100 is non-negative and within half a hundredth of h * 100 |
| Aht10.CentiNearest | firmware/main.c:356-357 | for non-negative values the two roundings agree |
| Aht10.CentiRange | firmware/main.c:356-357 | for any response, t100 lies in -5000..15000 and h100 in 0..10000 |
| Aht10.TestVectors | firmware/main.c:356-357 | raw humidity 0x19999 displays as 10.00 and raw temperature 0x33333 as -10.00 |
| Aht10.Split | firmware/main.c:359-365 | the fraction is below 100, and integer part * 100 + fraction gives back the magnitude; the integer part keeps the value's sign unless it is 0 |
| Aht10.Text | firmware/main.c:359-368 | the text ends with a point and two digits holding the magnitude modulo 100, and starts with a minus sign iff the value is -100 or below |
| Aht10.TextReadBack | firmware/main.c:359-368 | outside -99..-1, reading the printed text back gives the value |
| Aht10.TextLosesSign | firmware/main.c:359-361 | -50 hundredths and +50 hundredths print the same text "0.50" |
| Aht10.SignedTextReadBack | firmware/main.c:359-368 | the corrected text reads back to the value for every value |
| Aht10.SignedTextAgrees | firmware/main.c:359-368 | the corrected text equals the printed text wherever the latter is right |
| Rfm95.ReadAddr | hardware/firmware/lora_RFM95.c:113 | a read address has bit 7 clear and keeps the register's other bits |
| Rfm95.SetBit7 | hardware/firmware/lora_RFM95.c:122 | a write address has bit 7 set and keeps the register's other bits |
| Rfm95.FrameShape | hardware/firmware/lora_RFM95.c:72-97 | a frame is chip select, then one exchange per byte in order, each answered by the radio given everything before it, then chip release |
| Rfm95.RegisterFrames | hardware/firmware/lora_RFM95.c:110-125 | a register read or write is one chip-select frame of exactly its two bytes |
| Rfm95.ReadFrame | hardware/firmware/lora_RFM95.c:110-117 | a read is one frame of exactly two exchanges, reg & 0x7F then 0x00, and returns the answer to the second; it differs from a write only in bit 7 of the address byte |
| Rfm95.ModeMosi | hardware/firmware/lora_RFM95.c:128-130 | a mode change writes register 0x01 (address byte 0x81) with 0x80 \| mode, so the LoRa bit is always set and the mode kept |
| Rfm95.ModeFrame | hardware/firmware/lora_RFM95.c:128-130 | a mode change is one register write frame |
| Rfm95.LastMode | hardware/firmware/lora_RFM95.c:128-130 | the current mode is the low three bits of the last RegOpMode write |
| Rfm95.FrfBytes | hardware/firmware/lora_RFM95.c:151-154 | the synthesiser word is 0xE4C000, the division is exact, and its three bytes, MSB first, are 0xE4, 0xC0, 0x00 |
| Rfm95.InitRunFrames | hardware/firmware/lora_RFM95.c:143-147 | init succeeds iff RegVersion reads 0x12; on a mismatch its only frame is that read |
| Rfm95.InitMosiFrames | hardware/firmware/lora_RFM95.c:143-172 | the bytes init sends are the RegVersion read, then, iff it returned 0x12, the configuration writes in source order |
| Rfm95.InitRun | hardware/firmware/lora_RFM95.c:133-178 | a successful init is 20 frames, a failed one the single RegVersion read |
| Rfm95.InitShape | hardware/firmware/lora_RFM95.c:133-178 | on a mismatch nothing is written and no mode is set; on success 20 frames: Sleep first, then 0xE4, 0xC0, 0x00 to 0x06..0x08, ..., 0x12 <- 0xFF, and finally Standby (0x01 <- 0x81), the mode the radio is left in |
| Rfm95.PollFrom | hardware/firmware/lora_RFM95.c:201-215 | a poll with cnt reads left adds at least one frame and at most cnt + 2; a failed poll adds exactly cnt reads and Standby |
| Rfm95.PollShape | hardware/firmware/lora_RFM95.c:201-215 | at most cnt RegIrqFlags reads, of which only the last may see TxDone; on TxDone the flag clear and Standby follow; otherwise exactly cnt reads, then Standby |
| Rfm95.PollChained | hardware/firmware/lora_RFM95.c:201-215 | every frame of the poll is the radio's genuine answer to the bytes it carries |
| Rfm95.SendRun | hardware/firmware/lora_RFM95.c:182-216 | an empty or over-long payload sends nothing and fails; otherwise at least 8 frames and at most 7 + 5000 + 2; a failed send is exactly 7 + 5000 + 1 frames |
| Rfm95.SendShape | hardware/firmware/lora_RFM95.c:182-216 | for 1..255 bytes: Standby, FIFO pointer 0, one FIFO burst of 0x80 then the payload, 0x22 <- len, 0x12 <- 0xFF, 0x40 <- 0x40, TX (0x01 <- 0x83); then at most 5000 flag reads; success iff TxDone was seen, and then 0x12 <- 0x08; after a failure exactly 5000 reads; the last frame is always Standby |
| Rfm95.SendTimesOut | hardware/firmware/lora_RFM95.c:201-215 | a radio that never raises TxDone gets exactly 5000 polls, and the send fails in Standby |
| Rfm95.Radio.SpiSelect | hardware/firmware/lora_RFM95.c:72-76 | chip select is asserted on the link |
| Rfm95.Radio.SpiDeselect | hardware/firmware/lora_RFM95.c:78-82 | chip select is released |
| Rfm95.Radio.SpiTxRx | hardware/firmware/lora_RFM95.c:84-97 | one byte out, and the radio's answer to it given the history is returned and recorded |
| Rfm95.Radio.ReadReg | hardware/firmware/lora_RFM95.c:110-117 | appends the read frame and returns the register value the radio gave |
| Rfm95.Radio.WriteReg | hardware/firmware/lora_RFM95.c:120-125 | appends the write frame |
| Rfm95.Radio.SetMode | hardware/firmware/lora_RFM95.c:128-130 | appends the RegOpMode write of 0x80 \| mode |
| Rfm95.Radio.WriteFifo | hardware/firmware/lora_RFM95.c:100-107 | one frame: 0x80, then the payload bytes in order |
| Rfm95.Radio.Init | hardware/firmware/lora_RFM95.c:133-178 | puts exactly the init frames on the link and returns whether the identity check passed |
| Rfm95.Radio.Configure | hardware/firmware/lora_RFM95.c:149-172 | puts every configuration write on the link in source order, ending in Standby |
| Rfm95.Radio.ConfigureRf | hardware/firmware/lora_RFM95.c:149-161 | frequency, power and modem writes, in order |
| Rfm95.Radio.SetFrequency | hardware/firmware/lora_RFM95.c:149-154 | Sleep, then the three synthesiser bytes, MSB first |
| Rfm95.Radio.SetPower | hardware/firmware/lora_RFM95.c:157-158 | PA config 0xFF, PA DAC 0x87 |
| Rfm95.Radio.ConfigureModem | hardware/firmware/lora_RFM95.c:159-161 | modem configuration 0x78, 0xC4, 0x0C |
| Rfm95.Radio.ConfigurePacket | hardware/firmware/lora_RFM95.c:162-170 | framing, FIFO and IRQ writes, in order |
| Rfm95.Radio.ConfigureFraming | hardware/firmware/lora_RFM95.c:162-164 | preamble 0x000C, sync word 0x12 |
| Rfm95.Radio.ConfigureFifo | hardware/firmware/lora_RFM95.c:165-167 | OCP 0x37, both FIFO bases 0 |
| Rfm95.Radio.ConfigureIrq | hardware/firmware/lora_RFM95.c:168-170 | LNA 0x23, IRQ mask 0, every IRQ flag cleared |
| Rfm95.Radio.Send | hardware/firmware/lora_RFM95.c:182-216 | puts exactly the send frames on the link (none for an empty or over-long payload) and returns whether TxDone was seen |
| Rfm95.Radio.LoadPayload | hardware/firmware/lora_RFM95.c:188-192 | Standby, FIFO pointer 0, the FIFO burst, the payload length |
| Rfm95.Radio.StartTx | hardware/firmware/lora_RFM95.c:194-199 | IRQ flags cleared, DIO0 mapped to TxDone, then TX |
| Rfm95.Radio.AwaitTxDone | hardware/firmware/lora_RFM95.c:201-215 | puts exactly the poll's frames on the link and returns whether TxDone was seen within the budget |
| Rfm95.Radio.CompleteTx | hardware/firmware/lora_RFM95.c:203-207 | after a poll that saw TxDone, clears that flag and sets Standby, which completes a successful poll |

## Left out

- Delays (`delay_us`, `delay_ms`, `busy_wait_ms_local`, `busy_wait_us`) are not modelled; the 80 ms conversion wait of the AHT10 leaves no trace on the bus. The poll budget of `lora_send_bytes` is kept as the `limit` of `Rfm95.Radio.AwaitTxDone`, and `Send` passes 5000.
- `spi_master_init`, the `spi_txrx` status spin and the controller's CSR writes are not modelled. Each exchange is one atomic event answered by the `chip` oracle.
- The `CSR_LORA_RESET_BASE` reset toggling and every `printf` are not modelled. A failure is reported only by the return value.
- Aht10.Parse: computes with exact reals, not IEEE single precision. Float rounding of the scale and offset is not captured.
- Aht10.CentiNearest: the float rounding of `t * 100.0f ± 0.5f` before the cast is not captured. The cast is exact truncation toward zero of the real value.
- Aht10.Text: `printf`'s `%d.%02d` is modelled as decimal digits with a leading minus sign for negative integer parts only. Other printf behaviour is not modelled.
- The debug copy of `i2c_write_bit` (`firmware/main.c:204-219`) is not modelled. It prints and samples SDA at each bit.
- The address-probe stub of `aht10_trigger_and_read` (`firmware/main.c:293-311`) is not modelled. The active `aht10_get` calls this stub and then parses a buffer nothing has filled. Aht10.Get follows the full trigger-and-read body at lines 271-291 instead.
- `i2c_bus_idle`, the console (`readstr`, `get_token`, `console_service`, `help`, `reboot`, `main`), the receiver software and `hardware/firmware/main.c` are not part of this model.
- `lora_init` runs as straight-line code. Rfm95.Radio.Configure splits it into group methods (`SetFrequency`, `SetPower`, ...) that issue the same writes in the same order.
- Rfm95.Radio.SetFrequency: the 64-bit shift and division are computed exactly. The quotient is exact (`FrfBytes`), so C's floor gives the same value.
- `lora_write_fifo` takes a `uint8_t` length. `Rfm95.Radio.WriteFifo` requires fewer than 256 bytes, which `lora_send_bytes` guarantees.
- Register contents are not modelled beyond what the link shows. The radio's registers are observed only through the `chip` oracle's answers, and the current mode is derived from the writes (`LastMode`).

## Findings

| source | as written | input that shows it | evidently intended | confidence | as-written member | corrected member |
|---|---|---|---|---|---|---|
| firmware/main.c:89-97 | every driver call rewrites all three register fields: `i2c_drive_sda_low` writes SCL=0 and `i2c_set_scl` writes OE=0, so SCL is never high while SDA is driven low | the AHT10 write address 0x70 sent after `i2c_start` reaches the device as 0xFF, and the bus shows no START or STOP condition | each call changes only the line it names and keeps the other line's level, as the comments in `i2c_start`, `i2c_stop` and `i2c_write_bit` describe | high (proved; not executed) | I2cLevels.AsWrittenByteArrivesAsFF | I2cLevels.CorrectedByteAfterStart |
| firmware/main.c:359-361 | `t_int = t100 / 100` truncates to 0 for -99 <= t100 <= -1, and `t_frac` drops the sign, so a temperature between -0.99 and -0.01 degrees is printed without its minus sign | t100 = -50 prints "0.50", the same text as t100 = 50 | a minus sign whenever t100 < 0 | high (proved; not executed) | Aht10.TextLosesSign | Aht10.SignedTextReadBack |
