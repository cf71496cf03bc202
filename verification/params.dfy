/** Values the reservoir model imports from its constants module (src/constants), which is
    not part of this model. They are parameters here, bundled in one record together with
    the exponential factor of the viscosity law, which Dafny's reals do not provide. The
    record has no field for POROSITY or PERMEABILITY: each cell's porosity and permeability
    (the constant times the cell's random factor) are given to the reservoir's constructor.
    VISCOSITY_TEMP_COEFF appears only inside `thermalFactor`. */
module Params {

  datatype Constants = Constants(
    initialOilSat: real,         // INITIAL_OIL_SAT
    initialWaterSat: real,       // INITIAL_WATER_SAT
    reservoirTemp: real,         // RESERVOIR_TEMP
    bitumenViscosity: real,      // BITUMEN_VISCOSITY
    steamInjectionRate: real,    // STEAM_INJECTION_RATE
    steamTemp: real,             // STEAM_TEMP
    thermalFactor: real -> real  // d ↦ exp(VISCOSITY_TEMP_COEFF * d), left uninterpreted
  )

  /** What the model relies on of the constants: a positive base viscosity, a non-negative
      injection rate, and an exponential factor that is positive everywhere and 1 at 0. */
  ghost predicate Valid(k: Constants)
  {
    && k.bitumenViscosity > 0.0
    && k.steamInjectionRate >= 0.0
    && k.thermalFactor(0.0) == 1.0
    && forall d :: k.thermalFactor(d) > 0.0
  }
}
