/**
 * The program's random source, with its randomness taken out: every value it
 * would produce is drawn in advance onto one of two tapes, and each call hands
 * out the next value of its tape. A tape that runs dry stands for the point
 * where the program would go on drawing.
 */
module RandomTape {
  import opened Numeric

  /** A value of get_uniform(): uniform_int_distribution over [0, MaxSpecies - 1]. */
  type Uniform = d: int | 0 <= d < MaxSpecies

  class Random {
    /** The values get_uniform() returns, in order. */
    var uniforms: seq<Uniform>
    /** The values get() returns (the normal sample converted to uint64_t), in order. */
    var normals: seq<U64>

    constructor (uniforms: seq<Uniform>, normals: seq<U64>)
      ensures this.uniforms == uniforms && this.normals == normals
    {
      this.uniforms := uniforms;
      this.normals := normals;
    }

    /** get_uniform(): the next uniform index, or None when the tape is used up. */
    method GetUniform() returns (d: Option<Uniform>)
      modifies this
      ensures old(uniforms) == [] ==> d == None && uniforms == []
      ensures old(uniforms) != [] ==> d == Some(old(uniforms)[0]) && uniforms == old(uniforms)[1..]
      ensures normals == old(normals)
    {
      if uniforms == [] {
        d := None;
      } else {
        d := Some(uniforms[0]);
        uniforms := uniforms[1..];
      }
    }

    /** get(): the next normal sample, or None when the tape is used up. */
    method Get() returns (v: Option<U64>)
      modifies this
      ensures old(normals) == [] ==> v == None && normals == []
      ensures old(normals) != [] ==> v == Some(old(normals)[0]) && normals == old(normals)[1..]
      ensures uniforms == old(uniforms)
    {
      if normals == [] {
        v := None;
      } else {
        v := Some(normals[0]);
        normals := normals[1..];
      }
    }
  }
}
