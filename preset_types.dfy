/** The preset kinds that the rename bookkeeping and the dialogs distinguish.
    The full Preset::Type enumeration lives in Preset.hpp, which is not part of
    this model: only the enumerators the modelled code tests for are named, and
    every other kind (print, SLA, physical printer, ...) is `Other`. */
module PresetTypes {

  datatype PresetType = Invalid | Print | Filament | Printer | Other
}
