/** The radio configuration table of the LoRa driver (LoraDriverConfig.hpp):
    `getStandardConfig` chooses the settings from the board and the test mode. The
    floating-point fields are kept in fixed units: MHz and kHz as whole numbers, the TCXO
    voltage in tenths of a volt. */
module LoraConfig {

  /** `maxLoraPacketSize`: the largest packet the radio sends, in bytes. */
  const MaxLoraPacketSize: nat := 255

  datatype BoardType = EbyteSX1262 | WioSX1262

  datatype TestMode = LowPower | HighPower

  datatype RadioConfig = RadioConfig(
    freqMHz: nat,
    bwKHz: nat,
    spreadingFactor: nat,
    codingRate: nat,
    syncWord: nat,
    preambleLength: nat,
    tcxoDeciVolts: nat,
    paDuty: nat,
    hpMax: nat,
    regulatorTargetPower: nat)

  /** The straight-line assignments of `getStandardConfig`, in source order; a field
      assigned twice keeps its second value. */
  function GetStandardConfig(board: BoardType, mode: TestMode): (cfg: RadioConfig)
    ensures cfg.freqMHz == 915 && cfg.bwKHz == 250 && cfg.spreadingFactor == 7
    ensures cfg.codingRate == 7 && cfg.syncWord == 18 && cfg.preambleLength == 8
    ensures cfg.tcxoDeciVolts == if board == EbyteSX1262 then 18 else 22
    ensures mode == LowPower ==> cfg.paDuty == 2 && cfg.hpMax == 2 && cfg.regulatorTargetPower == 8
    ensures mode == HighPower ==> cfg.regulatorTargetPower == 22
    ensures mode == HighPower && board == EbyteSX1262 ==> cfg.paDuty == 2 && cfg.hpMax == 3
    ensures mode == HighPower && board == WioSX1262 ==> cfg.paDuty == 4 && cfg.hpMax == 7
  {
    var fixed := RadioConfig(915, 250, 7, 7, 18, 8, 0, 0, 0, 0);
    var withTcxo := fixed.(tcxoDeciVolts := if board == EbyteSX1262 then 18 else 22);
    if mode == LowPower then
      withTcxo.(paDuty := 2, hpMax := 2, regulatorTargetPower := 8)
    else if board == EbyteSX1262 then
      var first := withTcxo.(paDuty := 4, hpMax := 7);
      first.(paDuty := 2, hpMax := 3, regulatorTargetPower := 22)
    else
      withTcxo.(paDuty := 4, hpMax := 7, regulatorTargetPower := 22)
  }
}
